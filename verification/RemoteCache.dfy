// Remote feeds: reading the cache, refreshing it during a sync, and previewing the same refresh
// without writing.
module RemoteCache {
  import opened Options
  import opened Ordering
  import opened Framing
  import opened GenerationStore
  import opened Rotation
  import opened Networks
  import opened Feed
  import opened HttpFetch

  const MAX_HTTP_BODY_BYTES: nat := 32 * 1024 * 1024
  const MAX_IPLIST_READ_BYTES: nat := 16 * 1024 * 1024
  const MAX_METADATA_READ_BYTES: nat := 512 * 1024

  function Ascii(s: string): (r: Bytes)
    requires forall i :: 0 <= i < |s| ==> s[i] as int < 128
    ensures |r| == |s| && forall i :: 0 <= i < |s| ==> r[i] == s[i] as int
  {
    seq(|s|, i requires 0 <= i < |s| => s[i] as int)
  }

  function RawFile(): Bytes { Ascii("raw") }

  function IplistFile(): Bytes { Ascii("iplist") }

  function MetadataFile(): Bytes { Ascii("meta.json") }

  datatype Metadata = Metadata(
    url: string,
    etag: Option<string>,
    lastModified: Option<string>,
    sha256Raw: string,
    sha256Iplist: string)

  // What the model takes from libraries: the digest, UTF-8, JSON, and the text of one block.
  datatype Tools = Tools(
    codec: Codec,
    sha: Digest,
    decode: Bytes -> Option<string>,
    encode: string -> Bytes,
    lossy: Bytes -> string,
    readMeta: Bytes -> Option<Metadata>,
    writeMeta: Metadata -> Bytes)

  ghost predicate Sound(t: Tools) {
    && Digests(t.sha) && Faithful(t.codec)
    && (forall s :: t.decode(t.encode(s)) == Some(s))
    && (forall m :: t.readMeta(t.writeMeta(m)) == Some(m))
  }

  function HashText(t: Tools, bytes: Bytes): string { HexLower(t.sha(bytes)) }

  // ---- Reading the cache -------------------------------------------------------------------

  function RemoteLimits(): seq<Limit> {
    [Limit(RawFile(), MAX_HTTP_BODY_BYTES), Limit(IplistFile(), MAX_IPLIST_READ_BYTES),
      Limit(MetadataFile(), MAX_METADATA_READ_BYTES)]
  }

  datatype Loaded = Loaded(
    networks: Option<seq<CanonicalCidr>>,
    metadata: Option<Metadata>,
    generationId: Option<string>)

  // The list and the metadata of one generation, if its digests and URL are right.
  function ReadValidated(t: Tools, dir: Directory, url: string): Option<(string, Metadata)> {
    var metaBytes := ReadMember(dir, RemoteLimits()[2]);
    if metaBytes.None? || t.readMeta(metaBytes.value).None? then None
    else
      var metadata := t.readMeta(metaBytes.value).value;
      if Trim(metadata.url) == "" || Trim(metadata.url) != Trim(url) then None
      else
        var raw := ReadMember(dir, RemoteLimits()[0]);
        if raw.None? || HashText(t, raw.value) != metadata.sha256Raw then None
        else
          var iplist := ReadMember(dir, RemoteLimits()[1]);
          if iplist.None? || t.decode(iplist.value).None? then None
          else if HashText(t, iplist.value) != metadata.sha256Iplist then None
          else Some((t.decode(iplist.value).value, metadata))
  }

  function ReadGeneration(t: Tools, disk: Disk, id: string, url: string, limits: Limits): Option<Loaded> {
    if !ContentsMatch(t.sha, disk, id, RemoteLimits()) then None
    else
      var validated := ReadValidated(t, disk.generations[id], url);
      if validated.None? then None
      else
        var parsed := Parse(t.codec, validated.value.0, limits);
        if parsed.Exceeded? then None
        else Some(Loaded(Some(parsed.networks), Some(validated.value.1), Some(id)))
  }

  // A generation loads exactly when its three files can be read within their limits, match its id
  // and its own digests, belong to this URL up to surrounding blanks, and its list is within the
  // feed limits; it then gives the list's blocks.
  lemma LoadedExactly(t: Tools, disk: Disk, id: string, url: string, limits: Limits)
    ensures ReadGeneration(t, disk, id, url, limits).Some? <==>
            && ContentsMatch(t.sha, disk, id, RemoteLimits())
            && var dir := disk.generations[id];
            var (raw, list, meta) := (ReadMember(dir, Limit(Ascii("raw"), 0x200_0000)),
              ReadMember(dir, Limit(Ascii("iplist"), 0x100_0000)),
              ReadMember(dir, Limit(Ascii("meta.json"), 0x8_0000)));
            && raw.Some? && list.Some? && meta.Some? && t.readMeta(meta.value).Some? && t.decode(list.value).Some?
            && var m, data := t.readMeta(meta.value).value, DataOf(Lines(t.decode(list.value).value));
            && Trim(m.url) == Trim(url) && Trim(url) != ""
            && HexLower(t.sha(raw.value)) == m.sha256Raw && HexLower(t.sha(list.value)) == m.sha256Iplist
            && |data| <= limits.dataLines && |Distinct(t.codec, data)| <= limits.uniqueCidrs
    ensures ReadGeneration(t, disk, id, url, limits).Some? ==>
              var dir := disk.generations[id];
              var meta := t.readMeta(ReadMember(dir, Limit(Ascii("meta.json"), 0x8_0000)).value);
              var text := t.decode(ReadMember(dir, Limit(Ascii("iplist"), 0x100_0000)).value).value;
              ReadGeneration(t, disk, id, url, limits)
              == Some(Loaded(Some(Distinct(t.codec, DataOf(Lines(text)))), meta, Some(id)))
  {
    hide GenerationId, HexLower, Lines, DataOf, Distinct, InvalidIn, Trim, ReadMembers, ReadMember;
    assert RemoteLimits() == [Limit(Ascii("raw"), 0x200_0000), Limit(Ascii("iplist"), 0x100_0000),
                              Limit(Ascii("meta.json"), 0x8_0000)];
  }

  function FirstLoaded(t: Tools, disk: Disk, ids: seq<string>, url: string, limits: Limits): Option<Loaded> {
    if ids == [] then None
    else
      var loaded := ReadGeneration(t, disk, ids[0], url, limits);
      if loaded.Some? then loaded else FirstLoaded(t, disk, ids[1..], url, limits)
  }

  // Flat files of an earlier layout.
  datatype LegacyFile = Missing | Broken | Contents(bytes: Bytes)
  datatype Legacy = Legacy(iplist: LegacyFile, metadata: LegacyFile)

  datatype CacheRead = ReadFailed | Read(loaded: Loaded)

  function LegacyMetadata(t: Tools, legacy: Legacy): Option<Metadata> {
    if legacy.metadata.Contents? && |legacy.metadata.bytes| <= MAX_METADATA_READ_BYTES
    then t.readMeta(legacy.metadata.bytes) else None
  }

  function ReadLegacy(t: Tools, legacy: Legacy, limits: Limits): CacheRead {
    var metadata := LegacyMetadata(t, legacy);
    match legacy.iplist
    case Missing => Read(Loaded(None, metadata, None))
    case Broken => ReadFailed
    case Contents(bytes) =>
      if |bytes| > MAX_IPLIST_READ_BYTES || t.decode(bytes).None? then ReadFailed
      else if metadata.Some? && HashText(t, bytes) != metadata.value.sha256Iplist
      then Read(Loaded(None, metadata, None))
      else
        var parsed := Parse(t.codec, t.decode(bytes).value, limits);
        Read(Loaded(if parsed.Parsed? then Some(parsed.networks) else None, metadata, None))
  }

  function ReadRemoteCache(t: Tools, disk: Disk, legacy: Legacy, url: string, limits: Limits): CacheRead {
    var loaded := FirstLoaded(t, disk, Candidates(disk), url, limits);
    if loaded.Some? then Read(loaded.value) else ReadLegacy(t, legacy, limits)
  }

  // The loop over candidates, with its early exit.
  method LoadRemoteCache(t: Tools, disk: Disk, legacy: Legacy, url: string, limits: Limits) returns (r: CacheRead)
    ensures r == ReadRemoteCache(t, disk, legacy, url, limits)
  {
    hide ReadGeneration, ReadLegacy, Candidates;
    var candidates := Candidates(disk);
    var k := 0;
    while k < |candidates|
      invariant 0 <= k <= |candidates|
      invariant FirstLoaded(t, disk, candidates, url, limits) == FirstLoaded(t, disk, candidates[k..], url, limits)
    {
      var loaded := ReadGeneration(t, disk, candidates[k], url, limits);
      if loaded.Some? { return Read(loaded.value); }
      k := k + 1;
    }
    return ReadLegacy(t, legacy, limits);
  }

  lemma {:induction false} FirstIsEarliest(t: Tools, disk: Disk, ids: seq<string>, url: string, limits: Limits)
    ensures var loaded := FirstLoaded(t, disk, ids, url, limits);
            && (loaded.Some? ==>
                  exists k :: && 0 <= k < |ids| && ReadGeneration(t, disk, ids[k], url, limits) == loaded
                              && forall j :: 0 <= j < k ==> ReadGeneration(t, disk, ids[j], url, limits).None?)
            && (loaded.None? <==> forall k :: 0 <= k < |ids| ==> ReadGeneration(t, disk, ids[k], url, limits).None?)
  {
    hide ReadGeneration;
    if ids == [] {
    } else {
      var rest := ids[1..];
      FirstIsEarliest(t, disk, rest, url, limits);
      assert ids == [ids[0]] + rest;
      if ReadGeneration(t, disk, ids[0], url, limits).None? {
        var loaded := FirstLoaded(t, disk, rest, url, limits);
        if loaded.Some? {
          var k :| && 0 <= k < |rest| && ReadGeneration(t, disk, rest[k], url, limits) == loaded
                   && forall j :: 0 <= j < k ==> ReadGeneration(t, disk, rest[j], url, limits).None?;
          assert ids[k + 1] == rest[k];
        }
      }
    }
  }

  // The read takes the earliest selected generation that loads, and the files of the earlier layout
  // only if none does. Those fail it exactly when their list is there but cannot be read as text
  // within its limit; a list that its metadata contradicts or that breaks a feed limit is no list.
  lemma ReadExactly(t: Tools, disk: Disk, legacy: Legacy, url: string, limits: Limits)
    ensures var r, ids := ReadRemoteCache(t, disk, legacy, url, limits), Candidates(disk);
            if exists k :: 0 <= k < |ids| && ReadGeneration(t, disk, ids[k], url, limits).Some? then
              exists k :: && 0 <= k < |ids| && r.Read? && ReadGeneration(t, disk, ids[k], url, limits) == Some(r.loaded)
                          && forall j :: 0 <= j < k ==> ReadGeneration(t, disk, ids[j], url, limits).None?
            else r == ReadLegacy(t, legacy, limits)
    ensures var list, r := legacy.iplist, ReadLegacy(t, legacy, limits);
            var metadata := if legacy.metadata.Contents? && |legacy.metadata.bytes| <= 0x8_0000
              then t.readMeta(legacy.metadata.bytes) else None;
            && (r.ReadFailed? <==>
                  list.Broken? || (list.Contents? && (|list.bytes| > 0x100_0000 || t.decode(list.bytes).None?)))
            && (r.Read? ==> r.loaded.metadata == metadata && r.loaded.generationId.None?)
            && (r.Read? && list.Missing? ==> r.loaded.networks.None?)
            && (r.Read? && list.Contents? ==>
                  var data := DataOf(Lines(t.decode(list.bytes).value));
                  && (r.loaded.networks.Some? <==>
                        && (metadata.Some? ==> HexLower(t.sha(list.bytes)) == metadata.value.sha256Iplist)
                        && |data| <= limits.dataLines && |Distinct(t.codec, data)| <= limits.uniqueCidrs)
                  && (r.loaded.networks.Some? ==> r.loaded.networks == Some(Distinct(t.codec, data))))
  {
    hide ReadGeneration, Candidates, HexLower, Lines, DataOf, Distinct, InvalidIn, FirstLoaded;
    FirstIsEarliest(t, disk, Candidates(disk), url, limits);
  }

  // The same candidates with the same directories read the same.
  ghost predicate SameSelected(d: Disk, e: Disk) {
    && Candidates(d) == Candidates(e)
    && forall id :: id in Candidates(d) ==>
         (id in d.generations <==> id in e.generations)
         && (id in d.generations ==> d.generations[id] == e.generations[id])
  }

  lemma {:induction false} SameFirstLoaded(t: Tools, d: Disk, e: Disk, ids: seq<string>, url: string, limits: Limits)
    requires SameSelected(d, e) && forall id :: id in ids ==> id in Candidates(d)
    ensures FirstLoaded(t, d, ids, url, limits) == FirstLoaded(t, e, ids, url, limits)
  {
    hide ReadValidated, Parse, Candidates;
    if ids == [] {
    } else {
      assert ids[0] in ids;
      SameFirstLoaded(t, d, e, ids[1..], url, limits);
    }
  }

  // A generation that was loaded is selected, there, and matches its id.
  lemma LoadedIsThere(t: Tools, disk: Disk, legacy: Legacy, url: string, limits: Limits)
    ensures var r := ReadRemoteCache(t, disk, legacy, url, limits);
            r.Read? && r.loaded.generationId.Some? ==>
              var id := r.loaded.generationId.value;
              id in Candidates(disk) && id in disk.generations && ContentsMatch(t.sha, disk, id, RemoteLimits())
              && ReadGeneration(t, disk, id, url, limits) == Some(r.loaded)
  {
    hide ReadValidated, Parse, Candidates, ContentsMatch;
    FirstLoadedFacts(t, disk, Candidates(disk), url, limits);
  }

  lemma {:induction false} FirstLoadedFacts(t: Tools, disk: Disk, ids: seq<string>, url: string, limits: Limits)
    ensures var loaded := FirstLoaded(t, disk, ids, url, limits);
            && (loaded.Some? ==>
                  var id := loaded.value.generationId;
                  && id.Some? && id.value in ids && id.value in disk.generations
                  && ContentsMatch(t.sha, disk, id.value, RemoteLimits())
                  && ReadGeneration(t, disk, id.value, url, limits) == loaded)
            && (loaded.None? ==> forall id :: id in ids ==> ReadGeneration(t, disk, id, url, limits).None?)
  {
    hide ReadValidated, Parse;
    if ids == [] {
    } else {
      FirstLoadedFacts(t, disk, ids[1..], url, limits);
      assert ids == [ids[0]] + ids[1..];
    }
  }

  lemma CleanupKeepsReading(t: Tools, p: Past, q: Past, legacy: Legacy, url: string, limits: Limits)
    requires Kept(p, q, CleanupScope(p.disk)) && q.disk.generations.Keys <= p.disk.generations.Keys
    ensures ReadRemoteCache(t, p.disk, legacy, url, limits) == ReadRemoteCache(t, q.disk, legacy, url, limits)
  {
    hide FirstLoaded, ReadLegacy;
    forall id | id in Candidates(p.disk)
      ensures (id in p.disk.generations <==> id in q.disk.generations)
              && (id in p.disk.generations ==> p.disk.generations[id] == q.disk.generations[id])
    {
      SelectedOutsideCleanup(p.disk, id);
    }
    SameFirstLoaded(t, p.disk, q.disk, Candidates(p.disk), url, limits);
  }

  // ---- Validating a response ---------------------------------------------------------------

  datatype Validated = Validated(networks: seq<CanonicalCidr>, normalized: string)

  function Validate(t: Tools, response: Response, maxBytes: nat, limits: Limits): Option<Validated> {
    if !IsSuccess(response.status) || |response.body| > maxBytes then None
    else
      var parsed := Parse(t.codec, t.lossy(response.body), limits);
      if parsed.Exceeded? || (parsed.dataLines > 0 && parsed.networks == []) then None
      else Some(Validated(parsed.networks, Normalized(t.codec, parsed.networks)))
  }

  // Accepted exactly when the status is a success, the body and both counts are within bounds, and
  // a feed with data has at least one block; the blocks are those its lines say, ascending.
  lemma ValidatedExactly(t: Tools, response: Response, maxBytes: nat, limits: Limits)
    ensures var data := DataOf(Lines(t.lossy(response.body)));
            Validate(t, response, maxBytes, limits).Some? <==>
            && IsSuccess(response.status) && |response.body| <= maxBytes
            && |data| <= limits.dataLines && |Distinct(t.codec, data)| <= limits.uniqueCidrs
            && (data != [] ==> exists c :: Says(t.codec, data, c))
    ensures Validate(t, response, maxBytes, limits).Some? ==>
              var v := Validate(t, response, maxBytes, limits).value;
              && v.networks == Distinct(t.codec, DataOf(Lines(t.lossy(response.body))))
              && v.normalized == Normalized(t.codec, v.networks) && Sorted(v.networks, CidrLess)
              && forall c :: c in v.networks <==> Says(t.codec, DataOf(Lines(t.lossy(response.body))), c)
  {
    hide Parse, Normalized, Lines, DataOf, Distinct, Says;
    var text := t.lossy(response.body);
    var parsed := Parse(t.codec, text, limits);
    ParseIsOutcome(t.codec, text, limits);
    AcceptedWithinBudgets(t.codec, text, limits, parsed);
    if parsed.Parsed? {
      ParsedMeaning(t.codec, text, limits, parsed);
      if parsed.networks != [] { assert parsed.networks[0] in parsed.networks; }
    }
  }

  method ValidateResponse(t: Tools, response: Response, maxBytes: nat, limits: Limits) returns (r: Option<Validated>)
    ensures r == Validate(t, response, maxBytes, limits)
  {
    hide Parse, Normalized;
    if !IsSuccess(response.status) { return None; }
    if |response.body| > maxBytes { return None; }
    var parsed := ParseBounded(t.codec, t.lossy(response.body), limits);
    if parsed.Exceeded? { return None; }
    if parsed.dataLines > 0 && parsed.networks == [] { return None; }
    var normalized := FormatNormalized(t.codec, parsed.networks);
    return Some(Validated(parsed.networks, normalized));
  }

  // ---- Preview -----------------------------------------------------------------------------

  datatype Provenance = FromNetwork | FromCache | FromFallbackCache | Unavailable
  datatype Preview =
    | PreviewFailed
    | TooLarge(bytes: nat, limit: nat)
    | Shown(networks: seq<CanonicalCidr>, provenance: Provenance)

  function ReadOnlyCached(cached: Loaded, provenance: Provenance): Preview {
    if cached.networks.None? then Shown([], Unavailable) else Shown(cached.networks.value, provenance)
  }

  // The limits of one load: response body, feed, and normalized list.
  datatype Bounds = Bounds(maxBytes: nat, feed: Limits, maxIplist: nat)

  function ReadForPreview(t: Tools, disk: Disk, legacy: Legacy, client: Option<Client>, url: string,
          bounds: Bounds): Preview
  {
    match ReadRemoteCache(t, disk, legacy, url, bounds.feed)
    case ReadFailed => PreviewFailed
    case Read(cached) =>
      if client.None? then ReadOnlyCached(cached, FromCache) else PreviewRefresh(t, cached, client.value, bounds)
  }

  function FetchFor(cached: Loaded, client: Client): Fetched {
    var etag := if cached.metadata.Some? then cached.metadata.value.etag else None;
    var lastModified := if cached.metadata.Some? then cached.metadata.value.lastModified else None;
    FetchWithConditionalCache(client, etag, lastModified, cached.networks.Some?)
  }

  function PreviewRefresh(t: Tools, cached: Loaded, client: Client, bounds: Bounds): Preview {
    match FetchFor(cached, client)
    case CacheNotModified => ReadOnlyCached(cached, FromCache)
    case FallbackCache => ReadOnlyCached(cached, FromFallbackCache)
    case Network(response) => PreviewResponse(t, cached, response, bounds)
  }

  function PreviewResponse(t: Tools, cached: Loaded, response: Response, bounds: Bounds): Preview {
    var validated := Validate(t, response, bounds.maxBytes, bounds.feed);
    if validated.None? then ReadOnlyCached(cached, FromFallbackCache)
    else
      var bytes := |t.encode(validated.value.normalized)|;
      if bytes > bounds.maxIplist
      then
        if cached.networks.None? then TooLarge(bytes, bounds.maxIplist)
        else ReadOnlyCached(cached, FromFallbackCache)
      else Shown(validated.value.networks, FromNetwork)
  }

  // ---- Sync --------------------------------------------------------------------------------

  datatype Source = NetworkSource | NotModifiedSource | FallbackSource | EmptySource

  function Corresponding(source: Source): Provenance {
    match source
    case NetworkSource => FromNetwork
    case NotModifiedSource => FromCache
    case FallbackSource => FromFallbackCache
    case EmptySource => Unavailable
  }

  datatype Preparation =
    | CacheUnreadable
    | StagingFailed
    | Prepared(networks: seq<CanonicalCidr>, source: Source, metadata: Option<Metadata>,
      promotion: Option<StagedGeneration>)

  function CacheFallback(cached: Loaded): Preparation {
    if cached.networks.Some? then Prepared(cached.networks.value, FallbackSource, cached.metadata, None)
    else Prepared([], EmptySource, cached.metadata, None)
  }

  function RemoteFiles(raw: Bytes, iplist: Bytes, metadata: Bytes): seq<File> {
    [File(RawFile(), raw), File(IplistFile(), iplist), File(MetadataFile(), metadata)]
  }

  function MetadataFor(t: Tools, url: string, response: Response, normalized: string): Metadata {
    Metadata(url, response.etag, response.lastModified, HashText(t, response.body), HashText(t, t.encode(normalized)))
  }

  function FilesFor(t: Tools, url: string, response: Response, validated: Validated): seq<File> {
    RemoteFiles(response.body, t.encode(validated.normalized),
      t.writeMeta(MetadataFor(t, url, response, validated.normalized)))
  }

  lemma RemoteNames()
    ensures |RawFile()| == 3 && |IplistFile()| == 6 && |MetadataFile()| == 9
    ensures IsSafeFileName(RawFile()) && IsSafeFileName(IplistFile()) && IsSafeFileName(MetadataFile())
  {
  }

  lemma RemoteFilesStageable(raw: Bytes, iplist: Bytes, metadata: Bytes)
    ensures Stageable(RemoteFiles(raw, iplist, metadata))
  {
    hide IsSafeFileName, RawFile, IplistFile, MetadataFile;
    RemoteNames();
  }

  // The sync chose what the preview shows.
  predicate SameChoice(p: Preview, r: Preparation) {
    match r
    case CacheUnreadable => p.PreviewFailed?
    case StagingFailed => p.TooLarge?
    case Prepared(networks, source, _, _) => p == Shown(networks, Corresponding(source))
  }

  // Staging failed after a good response: the cache stands in, or there is nothing.
  predicate FellBack(p: Preview, cached: Loaded, r: Preparation) {
    p.Shown? && p.provenance.FromNetwork?
      && r == (if cached.networks.Some? then Prepared(cached.networks.value, FallbackSource, cached.metadata, None)
               else StagingFailed)
  }

  // What a refresh leaves to be promoted: the response, its list and its metadata, staged.
  ghost predicate Pending(t: Tools, store: Store, cached: Loaded, response: Response, url: string, bounds: Bounds,
          r: Preparation)
    requires r.Prepared? && r.promotion.Some?
    reads r.promotion.value, store
  {
    var g, validated := r.promotion.value, Validate(t, response, bounds.maxBytes, bounds.feed);
    && validated.Some? && |t.encode(validated.value.normalized)| <= bounds.maxIplist
    && r.networks == validated.value.networks && r.source.NetworkSource?
    && r.metadata == Some(MetadataFor(t, url, response, validated.value.normalized))
    && g.store == store && g.Ready() && !g.promoted
    && g.files == ByName(FilesFor(t, url, response, validated.value))
    && g.generationId == GenerationId(t.sha, FilesFor(t, url, response, validated.value))
    && g.previous == NextPrevious(store.disk, g.generationId, cached.generationId)
    && (cached.generationId == Some(g.generationId) ==> !g.removeOnDrop)
  }

  method HandleNetworkResponse(t: Tools, store: Store, cached: Loaded, response: Response, url: string, bounds: Bounds)
    returns (r: Preparation)
    requires store.Valid() && store.sha == t.sha
    requires cached.generationId.Some? ==> cached.generationId.value in store.disk.generations
    modifies store
    ensures store.Valid() && Kept(old(store.Now()), store.Now(), {}) && !r.CacheUnreadable?
    ensures var p := PreviewResponse(t, cached, response, bounds);
            && (SameChoice(p, r) || FellBack(p, cached, r))
            && (AllWork(store.world, old(store.clock)) && store.NameFree(old(store.counter), old(store.disk)) ==>
              SameChoice(p, r))
    ensures r.Prepared? ==> (r.promotion.Some? <==> r.source.NetworkSource?) && !r.source.NotModifiedSource?
    ensures r.Prepared? && r.promotion.None? ==> r.metadata == cached.metadata
    ensures r.Prepared? && r.promotion.Some? ==>
              fresh(r.promotion.value) && Pending(t, store, cached, response, url, bounds, r)
  {
    hide Kept, Parse, Normalized, ByName, GenerationId, NextPrevious, Stageable, IsSafeFileName, RawFile, IplistFile,
      MetadataFile;
    KeptSelf(store.Now(), {});
    var validated := ValidateResponse(t, response, bounds.maxBytes, bounds.feed);
    if validated.None? { return CacheFallback(cached); }
    var metadata := MetadataFor(t, url, response, validated.value.normalized);
    var iplist := t.encode(validated.value.normalized);
    if |iplist| > bounds.maxIplist {
      return if cached.networks.Some? then CacheFallback(cached) else StagingFailed;
    }
    var files := RemoteFiles(response.body, iplist, t.writeMeta(metadata));
    RemoteFilesStageable(response.body, iplist, t.writeMeta(metadata));
    StageableParts(files);
    ghost var p0 := store.Now();
    var staged := store.StageGeneration(files, cached.generationId);
    if !staged.Staged? {
      return if cached.networks.Some? then CacheFallback(cached) else StagingFailed;
    }
    KeptManifest(p0, store.Now(), {});
    NextIsTheSame(p0.disk, store.disk, staged.generation.generationId, cached.generationId);
    return Prepared(validated.value.networks, NetworkSource, Some(metadata), Some(staged.generation));
  }

  lemma StageableParts(files: seq<File>)
    requires Stageable(files)
    ensures files != [] && UniqueNames(files) && AllSafe(files)
  {
  }

  lemma NextIsTheSame(d: Disk, e: Disk, id: string, previous: Option<string>)
    requires d.manifestFile == e.manifestFile
    ensures NextPrevious(d, id, previous) == NextPrevious(e, id, previous)
  {
  }

  // ---- What a refresh is to decide ---------------------------------------------------------

  // The answer that counts. The first request carries what the cache's metadata recorded; only if
  // it is answered "not modified" and the cache has no usable list, a second one goes out without.
  function Heard(client: Client, cached: Loaded): Answer {
    var first :=
      match cached.metadata
      case Some(m) => client(0, Request(ifNoneMatch := m.etag, ifModifiedSince := m.lastModified))
      case None => client(0, Request(None, None));
    if first.Answered? && first.response.status == 304 && cached.networks.None? then client(1, Request(None, None))
    else first
  }

  function DataIn(t: Tools, response: Response): seq<string> { DataOf(Lines(t.lossy(response.body))) }

  // A response that may take the place of the list: a success, within all bounds, and with a block
  // in it if it has any data.
  ghost predicate IsAdmissible(t: Tools, response: Response, bounds: Bounds) {
    var data := DataIn(t, response);
    && 200 <= response.status < 300 && |response.body| <= bounds.maxBytes
    && |data| <= bounds.feed.dataLines && |Distinct(t.codec, data)| <= bounds.feed.uniqueCidrs
    && (data != [] ==> exists c :: Says(t.codec, data, c))
  }

  function NormalizedSize(t: Tools, response: Response): nat {
    |t.encode(Normalized(t.codec, Distinct(t.codec, DataIn(t, response))))|
  }

  // The list is replaced by what the server sent.
  ghost predicate Replaced(t: Tools, response: Response, url: string, r: Preparation) {
    var networks := Distinct(t.codec, DataIn(t, response));
    && r.Prepared? && r.networks == networks && r.source.NetworkSource? && r.promotion.Some?
    && r.metadata == Some(Metadata(
      url := url,
      etag := response.etag,
      lastModified := response.lastModified,
      sha256Raw := HexLower(t.sha(response.body)),
      sha256Iplist := HexLower(t.sha(t.encode(Normalized(t.codec, networks))))))
  }

  // What a refresh gives, by the cache and the answer that counts; `staged` tells whether staging works.
  ghost predicate Decision(t: Tools, cached: Loaded, client: Client, url: string, bounds: Bounds, staged: bool,
          r: Preparation)
  {
    var answer := Heard(client, cached);
    match cached.networks
    case Some(networks) =>
      if answer.Failed? then r == Prepared(networks, FallbackSource, cached.metadata, None)
      else if answer.response.status == 304 then r == Prepared(networks, NotModifiedSource, cached.metadata, None)
      else if !IsAdmissible(t, answer.response, bounds) || NormalizedSize(t, answer.response) > bounds.maxIplist
              || !staged
      then r == Prepared(networks, FallbackSource, cached.metadata, None)
      else Replaced(t, answer.response, url, r)
    case None =>
      if answer.Failed? || !IsAdmissible(t, answer.response, bounds)
      then r == Prepared([], EmptySource, cached.metadata, None)
      else if NormalizedSize(t, answer.response) > bounds.maxIplist || !staged then r == StagingFailed
      else Replaced(t, answer.response, url, r)
  }

  // What a preview shows, by the same.
  ghost predicate PreviewDecision(t: Tools, cached: Loaded, client: Option<Client>, bounds: Bounds, p: Preview) {
    match cached.networks
    case Some(networks) =>
      if client.None? then p == Shown(networks, FromCache)
      else
        var answer := Heard(client.value, cached);
        if answer.Failed? then p == Shown(networks, FromFallbackCache)
        else if answer.response.status == 304 then p == Shown(networks, FromCache)
        else if !IsAdmissible(t, answer.response, bounds) || NormalizedSize(t, answer.response) > bounds.maxIplist
        then p == Shown(networks, FromFallbackCache)
        else p == Shown(Distinct(t.codec, DataIn(t, answer.response)), FromNetwork)
    case None =>
      if client.None? then p == Shown([], Unavailable)
      else
        var answer := Heard(client.value, cached);
        if answer.Failed? || !IsAdmissible(t, answer.response, bounds) then p == Shown([], Unavailable)
        else if NormalizedSize(t, answer.response) > bounds.maxIplist
        then p == TooLarge(NormalizedSize(t, answer.response), bounds.maxIplist)
        else p == Shown(Distinct(t.codec, DataIn(t, answer.response)), FromNetwork)
  }

  lemma AdmissibleIsValidated(t: Tools, response: Response, bounds: Bounds)
    ensures var v := Validate(t, response, bounds.maxBytes, bounds.feed);
            && (v.Some? <==> IsAdmissible(t, response, bounds))
            && (v.Some? ==>
                  v.value.networks == Distinct(t.codec, DataIn(t, response))
                  && |t.encode(v.value.normalized)| == NormalizedSize(t, response))
  {
    hide Validate, Normalized, Lines, DataOf, Distinct, Says;
    ValidatedExactly(t, response, bounds.maxBytes, bounds.feed);
  }

  // The preview shows exactly that, online and offline, and fails exactly when the cache cannot be read.
  lemma PreviewExactly(t: Tools, disk: Disk, legacy: Legacy, client: Option<Client>, url: string, bounds: Bounds)
    ensures var read := ReadRemoteCache(t, disk, legacy, url, bounds.feed);
            var p := ReadForPreview(t, disk, legacy, client, url, bounds);
            && (p.PreviewFailed? <==> read.ReadFailed?)
            && (read.Read? ==> PreviewDecision(t, read.loaded, client, bounds, p))
  {
    hide ReadRemoteCache, PreviewDecision, PreviewRefresh;
    var read := ReadRemoteCache(t, disk, legacy, url, bounds.feed);
    if read.Read? {
      if client.Some? {
        RefreshExactly(t, read.loaded, client.value, bounds);
      } else {
        OfflineExactly(t, read.loaded, bounds);
      }
    }
  }

  lemma OfflineExactly(t: Tools, cached: Loaded, bounds: Bounds)
    ensures PreviewDecision(t, cached, None, bounds, ReadOnlyCached(cached, FromCache))
  {
    hide Heard, IsAdmissible, NormalizedSize;
  }

  lemma RefreshExactly(t: Tools, cached: Loaded, client: Client, bounds: Bounds)
    ensures var p := PreviewRefresh(t, cached, client, bounds);
            !p.PreviewFailed? && PreviewDecision(t, cached, Some(client), bounds, p)
  {
    hide Validate, IsAdmissible, NormalizedSize, Distinct, DataIn, FetchFor, Heard;
    FetchedIsHeard(cached, client);
    var answer := Heard(client, cached);
    if answer.Answered? {
      AdmissibleIsValidated(t, answer.response, bounds);
      NotModifiedIsNoSuccess(t, answer.response, bounds);
    }
  }

  // What the fetching makes of the answer that counts.
  lemma FetchedIsHeard(cached: Loaded, client: Client)
    ensures var f, answer := FetchFor(cached, client), Heard(client, cached);
            && (f.FallbackCache? <==> answer.Failed?)
            && (f.CacheNotModified? <==> answer.Answered? && answer.response.status == 304 && cached.networks.Some?)
            && (f.Network? ==> answer == Answered(f.response))
  {
  }

  lemma PendingReplaces(t: Tools, store: Store, cached: Loaded, response: Response, url: string, bounds: Bounds,
          r: Preparation)
    requires r.Prepared? && r.promotion.Some? && Pending(t, store, cached, response, url, bounds, r)
    ensures Replaced(t, response, url, r)
  {
    hide Validate, Normalized, Lines, DataOf, Distinct, Says, HexLower, ByName, GenerationId, NextPrevious;
    ValidatedExactly(t, response, bounds.maxBytes, bounds.feed);
  }

  lemma ChoiceIsDecision(t: Tools, cached: Loaded, client: Client, url: string, bounds: Bounds, r: Preparation)
    requires var p := PreviewRefresh(t, cached, client, bounds); SameChoice(p, r) || FellBack(p, cached, r)
    requires r.Prepared? ==> (r.promotion.Some? <==> r.source.NetworkSource?)
    requires r.Prepared? && r.promotion.None? ==> r.metadata == cached.metadata
    requires r.Prepared? && r.promotion.Some? ==>
               Heard(client, cached).Answered? && Replaced(t, Heard(client, cached).response, url, r)
    ensures SameChoice(PreviewRefresh(t, cached, client, bounds), r) ==>
              Decision(t, cached, client, url, bounds, true, r)
    ensures FellBack(PreviewRefresh(t, cached, client, bounds), cached, r) ==>
              Decision(t, cached, client, url, bounds, false, r)
  {
    hide PreviewRefresh, IsAdmissible, NormalizedSize, Distinct, DataIn, Heard, Replaced;
    RefreshExactly(t, cached, client, bounds);
  }

  // With a usable list there is always a list, and either it is the server's or it is the same.
  lemma DecisionKeepsList(t: Tools, cached: Loaded, client: Client, url: string, bounds: Bounds, r: Preparation)
    requires Decision(t, cached, client, url, bounds, true, r) || Decision(t, cached, client, url, bounds, false, r)
    ensures cached.networks.Some? ==>
              r.Prepared? && !r.source.EmptySource?
              && (!r.source.NetworkSource? ==> r.networks == cached.networks.value)
    ensures !r.CacheUnreadable?
  {
    hide IsAdmissible, NormalizedSize, Distinct, DataIn, Heard, Normalized;
  }

  lemma NotModifiedIsNoSuccess(t: Tools, response: Response, bounds: Bounds)
    ensures response.status == 304 ==> !IsAdmissible(t, response, bounds)
  {
  }

  // Cleans up, reads the cache, asks the server, and stages what it sent. The result is decided by
  // the cache and the answer alone, apart from a failure to stage; with a usable list in the cache
  // there is always a list, and no list is emptied. The preview of the same state shows the same
  // choice, except for that failure, which it cannot have.
  method Prepare(t: Tools, store: Store, legacy: Legacy, client: Client, url: string, bounds: Bounds)
    returns (r: Preparation, ghost cached: CacheRead)
    requires store.Valid() && store.sha == t.sha
    modifies store
    ensures store.Valid() && cached == ReadRemoteCache(t, old(store.disk), legacy, url, bounds.feed)
    ensures Kept(old(store.Now()), store.Now(), CleanupScope(old(store.disk)))
    ensures var p := ReadForPreview(t, old(store.disk), legacy, Some(client), url, bounds);
            && (SameChoice(p, r) || (cached.Read? && FellBack(p, cached.loaded, r)))
            && (AllWork(store.world, old(store.clock)) && store.NameFree(old(store.counter), old(store.disk)) ==>
              SameChoice(p, r))
    ensures r.CacheUnreadable? <==> cached.ReadFailed?
    ensures cached.Read? ==>
              && (Decision(t, cached.loaded, client, url, bounds, true, r)
                  || Decision(t, cached.loaded, client, url, bounds, false, r))
              && (AllWork(store.world, old(store.clock)) && store.NameFree(old(store.counter), old(store.disk)) ==>
                    Decision(t, cached.loaded, client, url, bounds, true, r))
              && (cached.loaded.networks.Some? ==>
                    r.Prepared? && !r.source.EmptySource?
                    && (!r.source.NetworkSource? ==> r.networks == cached.loaded.networks.value))
    ensures r.Prepared? ==> (r.promotion.Some? <==> r.source.NetworkSource?)
    ensures r.Prepared? && r.promotion.Some? ==>
              && cached.Read? && FetchFor(cached.loaded, client).Network? && fresh(r.promotion.value)
              && Pending(t, store, cached.loaded, FetchFor(cached.loaded, client).response, url, bounds, r)
  {
    hide Kept, ReadRemoteCache, Validate, Pending, FetchFor, CleanupScope, Decision, Heard, Replaced;
    ghost var p0 := store.Now();
    store.CleanupUnselectedGenerations();
    ghost var p1, scope := store.Now(), CleanupScope(p0.disk);
    CleanupKeepsReading(t, p0, store.Now(), legacy, url, bounds.feed);
    assert store.NameFree(old(store.counter), old(store.disk)) ==> store.NameFree(store.counter, store.disk);
    var read := LoadRemoteCache(t, store.disk, legacy, url, bounds.feed);
    cached := read;
    if read.ReadFailed? { return CacheUnreadable, cached; }
    var loaded := read.loaded;
    LoadedIsThere(t, store.disk, legacy, url, bounds.feed);
    FetchedIsHeard(loaded, client);
    match FetchFor(loaded, client) {
      case CacheNotModified =>
        if loaded.networks.Some? {
          r := Prepared(loaded.networks.value, NotModifiedSource, loaded.metadata, None);
        } else {
          r := Prepared([], EmptySource, None, None);
        }
      case FallbackCache => r := CacheFallback(loaded);
      case Network(response) =>
        r := HandleNetworkResponse(t, store, loaded, response, url, bounds);
        KeptOn(p0, p1, store.Now(), scope, {}, scope);
        if r.Prepared? && r.promotion.Some? { PendingReplaces(t, store, loaded, response, url, bounds, r); }
    }
    ChoiceIsDecision(t, loaded, client, url, bounds, r);
    DecisionKeepsList(t, loaded, client, url, bounds, r);
  }

  // ---- From a promotion to the next read ---------------------------------------------------

  predicate WithinLimits(files: seq<File>, limits: seq<Limit>) {
    |files| == |limits|
    && forall i :: 0 <= i < |files| ==> files[i].name == limits[i].name && |files[i].contents| <= limits[i].readLimit
  }

  lemma {:induction false} HeldReadWithin(dir: Directory, files: seq<File>, limits: seq<Limit>)
    requires GenerationStore.Holds(dir, files) && WithinLimits(files, limits)
    ensures ReadMembers(dir, limits) == Some(files)
  {
    if files == [] {
    } else {
      HeldReadWithin(dir, files[1..], limits[1..]);
      assert files == [files[0]] + files[1..];
    }
  }

  // A directory that holds what a refresh staged reads back as the blocks that were loaded,
  // exactly when its metadata can be read and its URL is not blank.
  lemma HeldIsReadable(t: Tools, disk: Disk, id: string, url: string, response: Response, bounds: Bounds)
    requires Sound(t) && bounds.maxBytes <= MAX_HTTP_BODY_BYTES && bounds.maxIplist <= MAX_IPLIST_READ_BYTES
    requires bounds.feed.uniqueCidrs <= bounds.feed.dataLines
    requires Validate(t, response, bounds.maxBytes, bounds.feed).Some?
    requires var v := Validate(t, response, bounds.maxBytes, bounds.feed).value;
             && |t.encode(v.normalized)| <= bounds.maxIplist
             && id == GenerationId(t.sha, FilesFor(t, url, response, v))
             && id in disk.generations && GenerationStore.Holds(disk.generations[id], FilesFor(t, url, response, v))
    ensures var v := Validate(t, response, bounds.maxBytes, bounds.feed).value;
            var metadata := MetadataFor(t, url, response, v.normalized);
            ReadGeneration(t, disk, id, url, bounds.feed) ==
            if Readable(t, url, metadata) then Some(Loaded(Some(v.networks), Some(metadata), Some(id))) else None
  {
    hide GenerationId, RawFile, IplistFile, MetadataFile, HexLower, Parse, Normalized, Trim, ByName;
    var v := Validate(t, response, bounds.maxBytes, bounds.feed).value;
    var metadata := MetadataFor(t, url, response, v.normalized);
    var files, dir := FilesFor(t, url, response, v), disk.generations[id];
    assert files[0] == File(RawFile(), response.body) && files[1].name == IplistFile()
      && files[2].name == MetadataFile();
    MembersRead(dir, files);
    ValidatedReadsBack(t, response, bounds);
    if Readable(t, url, metadata) { HeldReadWithin(dir, files, RemoteLimits()); }
  }

  predicate Readable(t: Tools, url: string, metadata: Metadata) {
    Trim(url) != "" && |t.writeMeta(metadata)| <= MAX_METADATA_READ_BYTES
  }

  lemma MembersRead(dir: Directory, files: seq<File>)
    requires |files| == 3 && GenerationStore.Holds(dir, files)
    ensures forall i, limit :: 0 <= i < 3 ==>
              ReadMember(dir, Limit(files[i].name, limit)) ==
              if |files[i].contents| <= limit then Some(files[i].contents) else None
  {
  }

  // The normalized list of a validated response parses back to the same blocks.
  lemma ValidatedReadsBack(t: Tools, response: Response, bounds: Bounds)
    requires Sound(t) && bounds.feed.uniqueCidrs <= bounds.feed.dataLines
    requires Validate(t, response, bounds.maxBytes, bounds.feed).Some?
    ensures var v := Validate(t, response, bounds.maxBytes, bounds.feed).value;
            && v.normalized == Normalized(t.codec, v.networks)
            && Parse(t.codec, v.normalized, bounds.feed) == Parsed(v.networks, |v.networks|, 0)
  {
    hide Parse, Normalized;
    var text := t.lossy(response.body);
    var parsed := Parse(t.codec, text, bounds.feed);
    ParseIsOutcome(t.codec, text, bounds.feed);
    ParsedMeaning(t.codec, text, bounds.feed, parsed);
    WithinUnique(t.codec, text, bounds.feed, parsed);
    var normalized := Normalized(t.codec, parsed.networks);
    ParseIsOutcome(t.codec, normalized, bounds.feed);
    PrintedReadsBack(t.codec, parsed.networks, bounds.feed, Parse(t.codec, normalized, bounds.feed));
  }

  lemma WithinUnique(codec: Codec, text: string, limits: Limits, r: Parsing)
    requires Outcome(codec, text, limits, r) && r.Parsed?
    ensures |r.networks| <= limits.uniqueCidrs
  {
  }

  // The first candidate is this generation, and reading the cache gives these blocks.
  ghost predicate ReadsBack(t: Tools, disk: Disk, id: string, legacy: Legacy, url: string, limits: Limits,
          networks: seq<CanonicalCidr>, metadata: Option<Metadata>)
  {
    && Candidates(disk) != [] && Candidates(disk)[0] == id
    && ReadRemoteCache(t, disk, legacy, url, limits) == Read(Loaded(Some(networks), metadata, Some(id)))
  }

  // The generation's directory reads as other files, with the same digest as the ones the
  // response led to.
  ghost predicate ClashWith(t: Tools, disk: Disk, id: string, url: string, response: Response, bounds: Bounds) {
    var validated := Validate(t, response, bounds.maxBytes, bounds.feed);
    && validated.Some? && OtherFiles(t.sha, disk, id, FilesFor(t, url, response, validated.value))
  }

  ghost predicate OtherFiles(sha: Digest, disk: Disk, id: string, files: seq<File>) {
    && id in disk.generations
    && var read := ReadMembers(disk.generations[id], OwnLimits(ByName(files)));
    && read.Some? && Clash(sha, read.value, files)
  }

  // Prepares and promotes. Unless two file lists with equal digests turn up, the next read of the
  // cache under the same limits gives back exactly what was loaded.
  method PrepareAndPromote(t: Tools, store: Store, legacy: Legacy, client: Client, url: string, bounds: Bounds)
    returns (r: Preparation, promoted: Option<string>, ghost clash: bool)
    requires Sound(t) && store.Valid() && store.sha == t.sha
    requires bounds.maxBytes <= MAX_HTTP_BODY_BYTES && bounds.maxIplist <= MAX_IPLIST_READ_BYTES
    requires bounds.feed.uniqueCidrs <= bounds.feed.dataLines
    modifies store
    ensures store.Valid()
    ensures promoted.Some? ==> r.Prepared? && r.source.NetworkSource? && r.metadata.Some?
    ensures promoted.Some? && !clash && Readable(t, url, r.metadata.value) ==>
              ReadsBack(t, store.disk, promoted.value, legacy, url, bounds.feed, r.networks, r.metadata)
    ensures clash ==>
              var cached := ReadRemoteCache(t, old(store.disk), legacy, url, bounds.feed);
              && cached.Read? && FetchFor(cached.loaded, client).Network? && promoted.Some?
              && ClashWith(t, store.disk, promoted.value, url, FetchFor(cached.loaded, client).response, bounds)
  {
    hide Kept, ReadRemoteCache, Validate, FetchFor, GenerationId, ByName, ContentsMatch, OwnLimits, Candidates,
      FilesFor, Clash, ReadsBack, ClashWith, Readable, Writable, UniqueNames;
    promoted, clash := None, false;
    ghost var cached;
    r, cached := Prepare(t, store, legacy, client, url, bounds);
    if !r.Prepared? || r.promotion.None? { return; }
    var g := r.promotion.value;
    ghost var response := FetchFor(cached.loaded, client).response;
    ReadyIsAcceptable(g);
    var outcome := Settle(store, g, true, None, [], []);
    if !outcome.Promoted? { return; }
    promoted := Some(outcome.id);
    if Readable(t, url, r.metadata.value) {
      clash := PromotedReads(t, store.disk, outcome.id, legacy, url, response, bounds);
    }
  }

  lemma ReadyIsAcceptable(g: StagedGeneration)
    requires g.Ready()
    ensures Acceptable(Manifest(SCHEMA_VERSION, g.generationId, g.previous))
  {
    ProducedIdsAreIds(g.store.sha, g.files);
  }

  lemma PromotedReads(t: Tools, disk: Disk, id: string, legacy: Legacy, url: string, response: Response, bounds: Bounds)
    returns (clash: bool)
    requires Sound(t) && bounds.maxBytes <= MAX_HTTP_BODY_BYTES && bounds.maxIplist <= MAX_IPLIST_READ_BYTES
    requires bounds.feed.uniqueCidrs <= bounds.feed.dataLines
    requires Validate(t, response, bounds.maxBytes, bounds.feed).Some?
    requires var v := Validate(t, response, bounds.maxBytes, bounds.feed).value;
             var files := FilesFor(t, url, response, v);
             && |t.encode(v.normalized)| <= bounds.maxIplist && id == GenerationId(t.sha, files)
             && ContentsMatch(t.sha, disk, id, OwnLimits(ByName(files)))
             && Readable(t, url, MetadataFor(t, url, response, v.normalized))
    requires Candidates(disk) != [] && Candidates(disk)[0] == id
    ensures var v := Validate(t, response, bounds.maxBytes, bounds.feed).value;
            var metadata := Some(MetadataFor(t, url, response, v.normalized));
            && (clash ==> ClashWith(t, disk, id, url, response, bounds))
            && (!clash ==> ReadsBack(t, disk, id, legacy, url, bounds.feed, v.networks, metadata))
  {
    hide GenerationId, ByName, GenerationStore.Holds, ReadMembers, ReadGeneration, Clash, Candidates, Readable,
      Parse, Normalized, Trim;
    var v := Validate(t, response, bounds.maxBytes, bounds.feed).value;
    var files := FilesFor(t, url, response, v);
    var dir, own := disk.generations[id], OwnLimits(ByName(files));
    var read := ReadMembers(dir, own).value;
    if Clash(t.sha, read, files) { return true; }
    FilesAreSmall(t, url, response, bounds);
    OwnLimitsBounded(files);
    SameIdHolds(t.sha, dir, own, read, files);
    HeldIsReadable(t, disk, id, url, response, bounds);
    return false;
  }

  lemma FilesAreSmall(t: Tools, url: string, response: Response, bounds: Bounds)
    requires bounds.maxBytes <= MAX_HTTP_BODY_BYTES && bounds.maxIplist <= MAX_IPLIST_READ_BYTES
    requires Validate(t, response, bounds.maxBytes, bounds.feed).Some?
    requires var v := Validate(t, response, bounds.maxBytes, bounds.feed).value;
             |t.encode(v.normalized)| <= bounds.maxIplist
               && Readable(t, url, MetadataFor(t, url, response, v.normalized))
    ensures Addressable(FilesFor(t, url, response, Validate(t, response, bounds.maxBytes, bounds.feed).value))
  {
    hide RawFile, IplistFile, MetadataFile, Parse, Normalized, Trim;
    RemoteNames();
  }

  lemma OwnLimitsBounded(files: seq<File>)
    requires Addressable(files)
    ensures Bounded(OwnLimits(ByName(files)))
  {
    FileOrder();
    SortUniqueFacts(files, FileLess);
    var o := ByName(files);
    forall i | 0 <= i < |o| ensures |o[i].name| < WORD_LIMIT && |o[i].contents| < WORD_LIMIT {
      assert o[i] in o && o[i] in files;
    }
  }

  // ---- Sync after sync ---------------------------------------------------------------------

  // The reader finds usable networks.
  ghost predicate Loads(t: Tools, disk: Disk, legacy: Legacy, url: string, limits: Limits) {
    var r := ReadRemoteCache(t, disk, legacy, url, limits);
    r.Read? && r.loaded.networks.Some?
  }

  ghost predicate LoadsOn(t: Tools, p: Past, q: Past, legacy: Legacy, url: string, limits: Limits) {
    && p.log <= q.log && Loads(t, q.disk, legacy, url, limits)
    && forall i :: |p.log| <= i < |q.log| ==> Loads(t, q.log[i], legacy, url, limits)
  }

  lemma LoadsOnwards(t: Tools, p: Past, q: Past, r: Past, legacy: Legacy, url: string, limits: Limits)
    requires LoadsOn(t, p, q, legacy, url, limits) && LoadsOn(t, q, r, legacy, url, limits)
    ensures LoadsOn(t, p, r, legacy, url, limits)
  {
    hide Loads;
    forall i | |p.log| <= i < |q.log| ensures r.log[i] == q.log[i] {}
  }

  // A generation whose members read the same on another disk loads there too.
  lemma GoodLoads(t: Tools, d: Disk, e: Disk, legacy: Legacy, id: string, url: string, limits: Limits, read: seq<File>)
    requires GoodCopy(t.sha, d, id, RemoteLimits(), read) && GoodCopy(t.sha, e, id, RemoteLimits(), read)
    requires ReadGeneration(t, d, id, url, limits).Some?
    ensures Loads(t, e, legacy, url, limits)
  {
    hide Parse, Candidates, Trim, GenerationId, RawFile, IplistFile, MetadataFile, HashText;
    MembersAre(d.generations[id], RemoteLimits(), read);
    MembersAre(e.generations[id], RemoteLimits(), read);
    assert ReadGeneration(t, e, id, url, limits) == ReadGeneration(t, d, id, url, limits);
    FirstLoadedFacts(t, e, Candidates(e), url, limits);
  }

  lemma {:induction false} MembersAre(dir: Directory, limits: seq<Limit>, read: seq<File>)
    requires ReadMembers(dir, limits) == Some(read)
    ensures |read| == |limits|
    ensures forall i :: 0 <= i < |limits| ==> ReadMember(dir, limits[i]) == Some(read[i].contents)
  {
    hide ReadMember;
    if limits == [] {
    } else {
      MembersAre(dir, limits[1..], read[1..]);
    }
  }

  lemma GoodLoadsOn(t: Tools, p: Past, q: Past, legacy: Legacy, id: string, url: string, limits: Limits,
          read: seq<File>)
    requires GoodCopy(t.sha, p.disk, id, RemoteLimits(), read) && GoodOn(t.sha, p, q, id, RemoteLimits(), read)
    requires ReadGeneration(t, p.disk, id, url, limits).Some?
    ensures LoadsOn(t, p, q, legacy, url, limits)
  {
    hide GoodCopy, Loads, ReadGeneration;
    GoodLoads(t, p.disk, q.disk, legacy, id, url, limits, read);
    forall i | |p.log| <= i < |q.log| ensures Loads(t, q.log[i], legacy, url, limits) {
      GoodLoads(t, p.disk, q.log[i], legacy, id, url, limits, read);
    }
  }

  // Legacy files are never written, so what they give they always give.
  lemma LegacyLoadsOn(t: Tools, p: Past, q: Past, legacy: Legacy, url: string, limits: Limits)
    requires Loads(t, p.disk, legacy, url, limits) && p.log <= q.log
    requires ReadRemoteCache(t, p.disk, legacy, url, limits).loaded.generationId.None?
    ensures LoadsOn(t, p, q, legacy, url, limits)
  {
    hide ReadGeneration, Candidates;
    FirstLoadedFacts(t, p.disk, Candidates(p.disk), url, limits);
    LegacyLoads(t, q.disk, legacy, url, limits);
    forall i | |p.log| <= i < |q.log| ensures Loads(t, q.log[i], legacy, url, limits) {
      LegacyLoads(t, q.log[i], legacy, url, limits);
    }
  }

  lemma LegacyLoads(t: Tools, disk: Disk, legacy: Legacy, url: string, limits: Limits)
    requires var r := ReadLegacy(t, legacy, limits); r.Read? && r.loaded.networks.Some?
    ensures Loads(t, disk, legacy, url, limits)
  {
    hide ReadGeneration, Candidates, ReadLegacy;
    FirstLoadedFacts(t, disk, Candidates(disk), url, limits);
    LoadedHasNetworks(t, disk, Candidates(disk), url, limits);
  }

  lemma {:induction false} LoadedHasNetworks(t: Tools, disk: Disk, ids: seq<string>, url: string, limits: Limits)
    ensures var loaded := FirstLoaded(t, disk, ids, url, limits); loaded.Some? ==> loaded.value.networks.Some?
  {
    hide ReadValidated, Parse, ContentsMatch;
    if ids == [] {
    } else {
      LoadedHasNetworks(t, disk, ids[1..], url, limits);
    }
  }

  // Texts are shorter than a machine word counts.
  ghost predicate InMemory(t: Tools, url: string, answer: Answer) {
    answer.Answered? ==>
      forall normalized :: |t.writeMeta(MetadataFor(t, url, answer.response, normalized))| < WORD_LIMIT
  }

  ghost predicate AllInMemory(t: Tools, url: string, client: Client) {
    forall k, request :: InMemory(t, url, client(k, request))
  }

  predicate Modest(bounds: Bounds) {
    && bounds.maxBytes <= MAX_HTTP_BODY_BYTES && bounds.maxIplist <= MAX_IPLIST_READ_BYTES
    && bounds.feed.uniqueCidrs <= bounds.feed.dataLines
  }

  // The copy that was loaded has the id of what this response leads to, and other contents.
  ghost predicate ClashesOn(t: Tools, disk: Disk, legacy: Legacy, client: Client, url: string, bounds: Bounds) {
    var cached := ReadRemoteCache(t, disk, legacy, url, bounds.feed);
    && cached.Read? && FetchFor(cached.loaded, client).Network?
    && var response := FetchFor(cached.loaded, client).response;
    var validated := Validate(t, response, bounds.maxBytes, bounds.feed);
    && validated.Some? && OthersUnderId(t.sha, disk, RemoteLimits(), FilesFor(t, url, response, validated.value))
  }

  // One sync of one feed: clean up, read, ask the server, stage, and promote or abandon. If the
  // reader finds networks at the start, it finds networks on every disk in between, whatever
  // fails, or the copy it found has the digest of other files.
  method SyncFeed(t: Tools, store: Store, legacy: Legacy, client: Client, url: string, bounds: Bounds, admit: bool)
    returns (r: Preparation, outcome: Refreshed, ghost clash: bool)
    requires store.Valid() && store.sha == t.sha && Modest(bounds) && AllInMemory(t, url, client)
    modifies store
    ensures store.Valid() && old(store.log) <= store.log
    ensures clash ==> ClashesOn(t, old(store.disk), legacy, client, url, bounds)
    ensures Loads(t, old(store.disk), legacy, url, bounds.feed) && !clash ==>
              LoadsOn(t, old(store.Now()), store.Now(), legacy, url, bounds.feed)
  {
    hide Kept, GoodOn, GoodCopy, Clash, ReadRemoteCache, ReadGeneration, Validate, FetchFor, ByName, GenerationId,
      NextPrevious, ContentsMatch, OwnLimits, Candidates, CleanupScope, FilesFor, LoadsOn, UniqueNames, Writable,
      OthersUnderId;
    ghost var start, cached := store.Now(), ReadRemoteCache(t, store.disk, legacy, url, bounds.feed);
    ghost var scope, id := CleanupScope(start.disk), if cached.Read? then cached.loaded.generationId else None;
    ghost var read: seq<File> := [];
    clash, outcome := false, NotStaged;
    LoadedIsThere(t, start.disk, legacy, url, bounds.feed);
    RemoteBounded();
    if id.Some? { read := GoodRead(t.sha, start.disk, id.value); }
    ghost var again;
    r, again := Prepare(t, store, legacy, client, url, bounds);
    if r.Prepared? && r.promotion.Some? {
      ghost var response := FetchFor(cached.loaded, client).response;
      ghost var files := FilesFor(t, url, response, Validate(t, response, bounds.maxBytes, bounds.feed).value);
      FetchedInMemory(t, cached.loaded, client, url);
      FilesFitWords(t, url, response, bounds);
      outcome, clash := SettleKeeping(store, r.promotion.value, admit, start, id, RemoteLimits(), read, files);
    } else if id.Some? {
      GoodSelected(t.sha, start.disk, id.value, RemoteLimits(), read);
      KeepsGood(t.sha, start, store.Now(), scope, id.value, RemoteLimits(), read);
    }
    KeptLog(start, store.Now(), scope);
    if Loads(t, start.disk, legacy, url, bounds.feed) && !clash {
      if id.Some? { GoodLoadsOn(t, start, store.Now(), legacy, id.value, url, bounds.feed, read); }
      else { LegacyLoadsOn(t, start, store.Now(), legacy, url, bounds.feed); }
    }
  }

  lemma KeptLog(p: Past, q: Past, but: set<string>)
    ensures Kept(p, q, but) ==> p.log <= q.log
  {
  }

  lemma RemoteBounded()
    ensures Bounded(RemoteLimits())
  {
    hide RawFile, IplistFile, MetadataFile;
    RemoteNames();
  }

  lemma GoodRead(sha: Digest, d: Disk, id: string) returns (read: seq<File>)
    requires id in Candidates(d) && id in d.generations && ContentsMatch(sha, d, id, RemoteLimits())
    ensures GoodCopy(sha, d, id, RemoteLimits(), read)
  {
    read := ReadMembers(d.generations[id], RemoteLimits()).value;
  }

  lemma FetchedInMemory(t: Tools, cached: Loaded, client: Client, url: string)
    requires AllInMemory(t, url, client) && FetchFor(cached, client).Network?
    ensures InMemory(t, url, Answered(FetchFor(cached, client).response))
  {
    hide InMemory;
    FetchedFrom(cached, client);
  }

  lemma FetchedFrom(cached: Loaded, client: Client)
    requires FetchFor(cached, client).Network?
    ensures exists k, request :: client(k, request) == Answered(FetchFor(cached, client).response)
  {
  }

  lemma FilesFitWords(t: Tools, url: string, response: Response, bounds: Bounds)
    requires Modest(bounds) && InMemory(t, url, Answered(response))
    requires Validate(t, response, bounds.maxBytes, bounds.feed).Some?
    requires |t.encode(Validate(t, response, bounds.maxBytes, bounds.feed).value.normalized)| <= bounds.maxIplist
    ensures var files := FilesFor(t, url, response, Validate(t, response, bounds.maxBytes, bounds.feed).value);
            Addressable(files) && UniqueNames(files)
  {
    hide RawFile, IplistFile, MetadataFile, Parse, Normalized, IsSafeFileName;
    RemoteNames();
  }

  datatype FeedSync = FeedSync(client: Client, admit: bool)

  // Over any number of syncs under the same limits: once the reader finds networks, it finds
  // networks on every disk, with any fault at any step, until a disk holds other files under the
  // id of what a response leads to.
  method SyncForever(t: Tools, store: Store, legacy: Legacy, url: string, bounds: Bounds, syncs: seq<FeedSync>)
    returns (ghost clash: Option<(nat, Disk)>)
    requires store.Valid() && store.sha == t.sha && Modest(bounds)
    requires forall k :: 0 <= k < |syncs| ==> AllInMemory(t, url, syncs[k].client)
    modifies store
    ensures store.Valid() && old(store.log) <= store.log
    ensures clash.Some? ==>
              && clash.value.0 < |syncs| && Met(old(store.Now()), store.Now(), clash.value.1)
              && ClashesOn(t, clash.value.1, legacy, syncs[clash.value.0].client, url, bounds)
    ensures Loads(t, old(store.disk), legacy, url, bounds.feed) && clash.None? ==>
              LoadsOn(t, old(store.Now()), store.Now(), legacy, url, bounds.feed)
  {
    hide Loads, LoadsOn, ClashesOn, Met, Latest, AllInMemory;
    clash := None;
    ghost var loads := Loads(t, store.disk, legacy, url, bounds.feed);
    LoadsSelf(t, store.Now(), legacy, url, bounds.feed);
    for k := 0 to |syncs|
      invariant store.Valid() && old(store.log) <= store.log
      invariant clash.Some? ==>
                  && clash.value.0 < k && Met(old(store.Now()), store.Now(), clash.value.1)
                  && ClashesOn(t, clash.value.1, legacy, syncs[clash.value.0].client, url, bounds)
      invariant loads && clash.None? ==>
                  && LoadsOn(t, old(store.Now()), store.Now(), legacy, url, bounds.feed)
                  && Loads(t, store.disk, legacy, url, bounds.feed)
    {
      ghost var before := store.Now();
      var r, outcome, found := SyncFeed(t, store, legacy, syncs[k].client, url, bounds, syncs[k].admit);
      if clash.Some? {
        StillMet(old(store.Now()), before, store.Now(), clash.value.1);
      } else if found {
        LatestIsMet(old(store.Now()), before, store.Now(), store.first);
        clash := Some((k, before.disk));
      } else if loads {
        LoadsOnwards(t, old(store.Now()), before, store.Now(), legacy, url, bounds.feed);
        LoadsAtEnd(t, before, store.Now(), legacy, url, bounds.feed);
      }
    }
  }

  lemma LoadsSelf(t: Tools, p: Past, legacy: Legacy, url: string, limits: Limits)
    ensures Loads(t, p.disk, legacy, url, limits) ==> LoadsOn(t, p, p, legacy, url, limits)
  {
  }

  lemma LoadsAtEnd(t: Tools, p: Past, q: Past, legacy: Legacy, url: string, limits: Limits)
    requires LoadsOn(t, p, q, legacy, url, limits)
    ensures Loads(t, q.disk, legacy, url, limits)
  {
  }

  // ---- Limits that change between syncs ----------------------------------------------------

  // What a generation's list says; nothing if the generation does not validate.
  function ListOf(t: Tools, disk: Disk, id: string, url: string): seq<string> {
    if id in disk.generations && ReadValidated(t, disk.generations[id], url).Some?
    then DataOf(Lines(ReadValidated(t, disk.generations[id], url).value.0)) else []
  }

  // A generation that loads under some limits loads under others exactly when its list is within
  // these, and then gives the same networks.
  lemma LimitsDecide(t: Tools, disk: Disk, id: string, url: string, before: Limits, after: Limits)
    requires ReadGeneration(t, disk, id, url, before).Some?
    ensures var data := ListOf(t, disk, id, url);
            ReadGeneration(t, disk, id, url, after) ==
            if |data| <= after.dataLines && |Distinct(t.codec, data)| <= after.uniqueCidrs
            then ReadGeneration(t, disk, id, url, before) else None
  {
    hide ReadValidated, ReadMembers, GenerationId, Lines, DataOf, Distinct, InvalidIn;
  }

  // For what a sync staged, that is the number of networks against the block limit: a smaller set
  // size makes the copy unreadable exactly when it holds more networks than the new limit allows.
  lemma SetSizeDecides(t: Tools, disk: Disk, id: string, url: string, response: Response, bounds: Bounds, maxelem: nat,
          wordMax: nat)
    requires Sound(t) && Modest(bounds) && Validate(t, response, bounds.maxBytes, bounds.feed).Some?
    requires var v := Validate(t, response, bounds.maxBytes, bounds.feed).value;
             && |t.encode(v.normalized)| <= bounds.maxIplist
               && Readable(t, url, MetadataFor(t, url, response, v.normalized))
             && id == GenerationId(t.sha, FilesFor(t, url, response, v))
             && id in disk.generations && GenerationStore.Holds(disk.generations[id], FilesFor(t, url, response, v))
    ensures var v := Validate(t, response, bounds.maxBytes, bounds.feed).value;
            ReadGeneration(t, disk, id, url, FromMaxelem(maxelem, wordMax)).Some? <==>
            |v.networks| <= FromMaxelem(maxelem, wordMax).uniqueCidrs
  {
    hide GenerationId, RawFile, IplistFile, MetadataFile, HexLower, Parse, Trim, ContentsMatch, ReadMembers, Lines,
      DataOf, Join, Distinct;
    var v := Validate(t, response, bounds.maxBytes, bounds.feed).value;
    HeldIsReadable(t, disk, id, url, response, bounds);
    HeldList(t, disk, id, url, response, bounds);
    FeedsFitTheirLines(maxelem, wordMax);
    LimitsDecide(t, disk, id, url, bounds.feed, FromMaxelem(maxelem, wordMax));
  }

  lemma HeldList(t: Tools, disk: Disk, id: string, url: string, response: Response, bounds: Bounds)
    requires Sound(t) && Modest(bounds) && Validate(t, response, bounds.maxBytes, bounds.feed).Some?
    requires var v := Validate(t, response, bounds.maxBytes, bounds.feed).value;
             && |t.encode(v.normalized)| <= bounds.maxIplist
               && Readable(t, url, MetadataFor(t, url, response, v.normalized))
             && id in disk.generations && GenerationStore.Holds(disk.generations[id], FilesFor(t, url, response, v))
    ensures var v := Validate(t, response, bounds.maxBytes, bounds.feed).value;
            |ListOf(t, disk, id, url)| == |v.networks| && |Distinct(t.codec, ListOf(t, disk, id, url))| == |v.networks|
  {
    hide RawFile, IplistFile, MetadataFile, HexLower, Parse, Trim, Lines, DataOf, Join, Distinct;
    var v := Validate(t, response, bounds.maxBytes, bounds.feed).value;
    var files := FilesFor(t, url, response, v);
    assert files[0] == File(RawFile(), response.body) && files[1].name == IplistFile()
      && files[2].name == MetadataFile();
    MembersRead(disk.generations[id], files);
    ValidatedReadsBack(t, response, bounds);
    ParseIsOutcome(t.codec, v.normalized, bounds.feed);
  }

  // And what does not load is not kept: its id is not handed on, so the next manifest names the new
  // generation alone, and there is a world in which nothing is left, under any limits.
  method LoseLastCopy(t: Tools, disk: Disk, stagingName: nat -> string, legacy: Legacy, url: string,
          response: Response, bounds: Bounds,
                      ghost earlier: Limits)
    returns (store: Store)
    requires Digests(t.sha) && forall n: nat :: !IsGenerationId(stagingName(n))
    requires Validate(t, response, bounds.maxBytes, bounds.feed).Some?
    requires var files := FilesFor(t, url, response, Validate(t, response, bounds.maxBytes, bounds.feed).value);
             var id := GenerationId(t.sha, files);
             && ContentsMatch(t.sha, disk, id, OwnLimits(ByName(files))) && Candidates(disk) != [id]
    requires var cached := ReadRemoteCache(t, disk, legacy, url, bounds.feed);
             cached.Read? && cached.loaded.generationId.None?
    requires var former := ReadLegacy(t, legacy, earlier); !(former.Read? && former.loaded.networks.Some?)
    ensures var files := FilesFor(t, url, response, Validate(t, response, bounds.maxBytes, bounds.feed).value);
            var id := GenerationId(t.sha, files);
            var cached := ReadRemoteCache(t, disk, legacy, url, bounds.feed);
            && Candidates(store.disk) == [id] + Listed(NextPrevious(disk, id, cached.loaded.generationId))
            && !Loads(t, store.disk, legacy, url, earlier)
  {
    hide Validate, FilesFor, GenerationId, ByName, ContentsMatch, OwnLimits, Candidates, ReadRemoteCache, ReadLegacy;
    var validated := Validate(t, response, bounds.maxBytes, bounds.feed).value;
    var files := FilesFor(t, url, response, validated);
    FilesForUnique(t, url, response, validated);
    OrderedUnique(files);
    ProducedIdsAreIds(t.sha, files);
    OrderedId(t.sha, files);
    FirstIsAcceptable(GenerationId(t.sha, files));
    store := LoseFirst(t.sha, disk, stagingName, ByName(files), None);
    MissingLoadsNothing(t, store.disk, GenerationId(t.sha, files), legacy, url, earlier);
  }

  lemma FirstIsAcceptable(id: string)
    requires IsGenerationId(id)
    ensures Acceptable(Manifest(SCHEMA_VERSION, id, None))
  {
  }

  lemma FilesForUnique(t: Tools, url: string, response: Response, validated: Validated)
    ensures UniqueNames(FilesFor(t, url, response, validated))
  {
    hide RawFile, IplistFile, MetadataFile;
    RemoteNames();
  }

  lemma OrderedId(sha: Digest, files: seq<File>)
    requires ByName(ByName(files)) == ByName(files)
    ensures GenerationId(sha, ByName(files)) == GenerationId(sha, files)
  {
  }

  lemma MissingLoadsNothing(t: Tools, disk: Disk, id: string, legacy: Legacy, url: string, limits: Limits)
    requires Candidates(disk) == [id] && id !in disk.generations
    requires var r := ReadLegacy(t, legacy, limits); !(r.Read? && r.loaded.networks.Some?)
    ensures !Loads(t, disk, legacy, url, limits)
  {
    hide ReadLegacy, Candidates;
    assert FirstLoaded(t, disk, [id], url, limits) == None;
  }
}
