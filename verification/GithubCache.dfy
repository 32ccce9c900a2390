// The published address list of one provider: its cache with two fallbacks, the conditional
// refresh of a sync, and the preview of it.
module GithubCache {
  import opened Options
  import opened Ordering
  import opened Framing
  import opened GenerationStore
  import opened Rotation
  import opened Networks
  import opened Feed
  import opened Extraction
  import opened HttpFetch
  import opened RemoteCache

  const RAW_READ_LIMIT: nat := 8 * 1024 * 1024
  const META_READ_LIMIT: nat := 512 * 1024
  const CATEGORY_READ_LIMIT: nat := 256 * 1024
  const DEFAULT_URL: string := "https://api.github.com/meta"

  function RawJson(): Bytes { Ascii("raw.json") }

  function CategoryFile(): Bytes { Ascii("categories.json") }

  datatype GithubMetadata = GithubMetadata(
    url: string,
    etag: Option<string>,
    lastModified: Option<string>,
    sha256Raw: string)
  datatype Sidecar = Sidecar(mode: string, categories: seq<string>)

  datatype Kit = Kit(
    codec: Codec,
    sha: Digest,
    parseJson: Bytes -> Option<Value>,
    readMeta: Bytes -> Option<GithubMetadata>,
    writeMeta: GithubMetadata -> Bytes,
    readSidecar: Bytes -> Option<Sidecar>,
    writeSidecar: Sidecar -> Bytes)

  ghost predicate KitSound(t: Kit) {
    && Digests(t.sha) && Faithful(t.codec)
    && (forall m :: t.readMeta(t.writeMeta(m)) == Some(m))
    && (forall s :: t.readSidecar(t.writeSidecar(s)) == Some(s))
  }

  function Sha256Text(t: Kit, bytes: Bytes): string { HexLower(t.sha(bytes)) }

  // ---- Categories --------------------------------------------------------------------------

  function LowerAscii(c: char): char { if 'A' <= c <= 'Z' then c + ('a' - 'A') else c }

  function Lowered(s: string): string { seq(|s|, i requires 0 <= i < |s| => LowerAscii(s[i])) }

  function Codes(s: string): seq<int> { seq(|s|, i requires 0 <= i < |s| => s[i] as int) }

  predicate TextLess(a: string, b: string) { SeqLess(Codes(a), Codes(b)) }

  lemma TextOrder()
    ensures StrictTotal(TextLess)
  {
    forall a: string ensures !TextLess(a, a) { SeqLessIrreflexive(Codes(a)); }
    forall a: string, b: string ensures TextLess(a, b) || TextLess(b, a) || a == b {
      SeqLessConnected(Codes(a), Codes(b));
      if Codes(a) == Codes(b) {
        forall i | 0 <= i < |a| ensures a[i] == b[i] { assert Codes(a)[i] == Codes(b)[i]; }
        assert |a| == |Codes(a)| == |Codes(b)| == |b|;
      }
    }
    forall a: string, b: string, c: string | TextLess(a, b) && TextLess(b, c) ensures TextLess(a, c) {
      SeqLessTransitive(Codes(a), Codes(b), Codes(c));
    }
  }

  function NormalName(s: string): string { Lowered(Trim(s)) }

  function NormalNames(values: seq<string>): seq<string> {
    if values == [] then []
    else
      var rest, name := NormalNames(values[..|values| - 1]), NormalName(values[|values| - 1]);
      if name != "" then rest + [name] else rest
  }

  // Trimmed, lowered, without empty ones, ascending and without repetition.
  function NormalizeCategories(values: seq<string>): seq<string> { SortUnique(NormalNames(values), TextLess) }

  predicate IsNormalName(s: string) { s != "" && NormalName(s) == s }

  predicate NormalSelection(selection: Selection) {
    selection.Selected? ==>
      Sorted(selection.categories, TextLess) && forall i :: 0 <= i < |selection.categories| ==>
        IsNormalName(selection.categories[i])
  }

  lemma {:induction false} TrimStartEnds(s: string)
    ensures TrimStart(s) != "" ==> !IsSpace(TrimStart(s)[0]) && TrimStart(s)[|TrimStart(s)| - 1] == s[|s| - 1]
    ensures |TrimStart(s)| <= |s|
  {
    if s != "" && IsSpace(s[0]) { TrimStartEnds(s[1..]); }
  }

  lemma {:induction false} TrimEndEnds(s: string)
    ensures TrimEnd(s) != "" ==> !IsSpace(TrimEnd(s)[|TrimEnd(s)| - 1]) && TrimEnd(s)[0] == s[0]
    ensures |TrimEnd(s)| <= |s|
  {
    if s != "" && IsSpace(s[|s| - 1]) { TrimEndEnds(s[..|s| - 1]); }
  }

  lemma NormalNameIsNormal(s: string)
    ensures NormalName(s) != "" ==> IsNormalName(NormalName(s))
  {
    TrimStartEnds(s);
    TrimEndEnds(TrimStart(s));
    var name := NormalName(s);
    if name != "" {
      assert name[0] == LowerAscii(Trim(s)[0]) && name[|name| - 1] == LowerAscii(Trim(s)[|Trim(s)| - 1]);
      assert Trim(name) == name;
      assert Lowered(name) == name;
    }
  }

  lemma {:induction false} NormalNamesAreNormal(values: seq<string>)
    ensures forall s :: s in NormalNames(values) ==> IsNormalName(s)
    ensures (forall i :: 0 <= i < |values| ==> IsNormalName(values[i])) ==> NormalNames(values) == values
  {
    hide NormalName;
    if values == [] {
    } else {
      NormalNamesAreNormal(values[..|values| - 1]);
      NormalNameIsNormal(values[|values| - 1]);
    }
  }

  // Normalizing gives a normal selection, and leaves one as it is.
  lemma NormalizingTwice(values: seq<string>)
    ensures NormalSelection(Selected(NormalizeCategories(values)))
    ensures NormalSelection(Selected(values)) ==> NormalizeCategories(values) == values
  {
    hide NormalNames, IsNormalName;
    TextOrder();
    NormalNamesAreNormal(values);
    SortUniqueFacts(NormalNames(values), TextLess);
    var n := NormalizeCategories(values);
    forall i | 0 <= i < |n| ensures IsNormalName(n[i]) { assert n[i] in n; }
    if NormalSelection(Selected(values)) { SortedIsSortUnique(values, TextLess); }
  }

  // `name` is `s` with A to Z replaced by a to z.
  predicate LowerOf(s: string, name: string) {
    && |s| == |name|
    && forall i :: 0 <= i < |s| ==>
         name[i] as int == s[i] as int + if 65 <= s[i] as int <= 90 then 32 else 0
  }

  // The normal list is ascending and holds exactly the trimmed, lowered names that are not blank.
  lemma NormalizedExactly(values: seq<string>)
    ensures Sorted(NormalizeCategories(values), TextLess)
    ensures forall name :: name in NormalizeCategories(values) <==>
              name != "" && exists k :: 0 <= k < |values| && LowerOf(Trim(values[k]), name)
  {
    hide LowerOf, Trim, LowerAscii;
    TextOrder();
    SortUniqueFacts(NormalNames(values), TextLess);
    NormalNamesAre(values);
  }

  lemma {:induction false} NormalNamesAre(values: seq<string>)
    ensures forall name :: name in NormalNames(values) <==>
              name != "" && exists k :: 0 <= k < |values| && LowerOf(Trim(values[k]), name)
  {
    hide LowerOf, Trim, NormalName;
    if values == [] {
    } else {
      var front, last := values[..|values| - 1], values[|values| - 1];
      NormalNamesAre(front);
      LoweredIs(last);
      assert values == front + [last];
      forall name ensures name in NormalNames(values) <==>
        name != "" && exists k :: 0 <= k < |values| && LowerOf(Trim(values[k]), name) {
        if k :| 0 <= k < |front| && LowerOf(Trim(front[k]), name) { assert values[k] == front[k]; }
        if LowerOf(Trim(last), name) { assert values[|values| - 1] == last; }
        if k :| 0 <= k < |values| && LowerOf(Trim(values[k]), name) {
          assert if k < |front| then values[k] == front[k] else values[k] == last;
        }
      }
    }
  }

  lemma LoweredIs(s: string)
    ensures forall name :: LowerOf(Trim(s), name) <==> name == NormalName(s)
  {
    hide Trim;
    forall name ensures LowerOf(Trim(s), name) <==> name == NormalName(s) {
      assert forall i :: 0 <= i < |Trim(s)| ==> NormalName(s)[i] == LowerAscii(Trim(s)[i]);
      if LowerOf(Trim(s), name) {
        forall i | 0 <= i < |name| ensures name[i] == NormalName(s)[i] {
          assert name[i] as int == LowerAscii(Trim(s)[i]) as int;
        }
      }
    }
  }

  function ToSidecar(selection: Selection): Sidecar {
    match selection
    case All => Sidecar("all", [])
    case Selected(categories) => Sidecar("selected", categories)
  }

  predicate CacheScopeCompatible(selection: Selection, sidecar: Option<Sidecar>) {
    match selection
    case All => true
    case Selected(categories) =>
      sidecar.Some? && sidecar.value.mode == "selected" && NormalizeCategories(sidecar.value.categories) == categories
  }

  // What is recorded for a selection is compatible with it.
  lemma OwnScope(selection: Selection)
    requires NormalSelection(selection)
    ensures CacheScopeCompatible(selection, Some(ToSidecar(selection)))
  {
    if selection.Selected? { NormalizingTwice(selection.categories); }
  }

  // ---- One set of cache files --------------------------------------------------------------

  // Bounded reads of the three files.
  datatype Texts = Texts(raw: Option<Bytes>, metadata: Option<Bytes>, categories: Option<Bytes>)

  datatype Batch = Batch(networks: seq<CanonicalCidr>, metadata: Option<GithubMetadata>)

  ghost function ParseDocument(t: Kit, raw: Bytes, selection: Selection): Option<seq<CanonicalCidr>>
    requires Faithful(t.codec)
  {
    var value := t.parseJson(raw);
    if value.None? then None else Extract(t.codec, value.value, selection)
  }

  method ParseDocumentNow(t: Kit, raw: Bytes, selection: Selection) returns (r: Option<seq<CanonicalCidr>>)
    requires Faithful(t.codec)
    ensures r == ParseDocument(t, raw, selection)
  {
    var value := t.parseJson(raw);
    if value.None? { return None; }
    r := ParseAndExtract(t.codec, value.value, selection);
  }

  // The metadata that counts, and whether the files belong to the configured URL at all.
  function MatchingMetadata(t: Kit, texts: Texts, url: string, requireMetadata: bool): (bool, Option<GithubMetadata>) {
    var metadata := if texts.metadata.Some? then t.readMeta(texts.metadata.value) else None;
    if metadata.Some? then (if Trim(metadata.value.url) == Trim(url) then (true, metadata) else (false, None))
    else (!requireMetadata && url == DEFAULT_URL, None)
  }

  // The document to parse, if there is one these files vouch for.
  function VouchedDocument(t: Kit, texts: Texts, selection: Selection, url: string,
          requireMetadata: bool): Option<Bytes>
  {
    var (matches, metadata) := MatchingMetadata(t, texts, url, requireMetadata);
    var sidecar := if matches && texts.categories.Some? then t.readSidecar(texts.categories.value) else None;
    if !matches || texts.raw.None? then None
    else if metadata.Some? && Sha256Text(t, texts.raw.value) != metadata.value.sha256Raw then None
    else if requireMetadata && (metadata.None? || sidecar.None?) then None
    else if !CacheScopeCompatible(selection, sidecar) then None
    else texts.raw
  }

  ghost function ReadTexts(t: Kit, texts: Texts, selection: Selection, url: string,
          requireMetadata: bool): Option<Batch>
    requires Faithful(t.codec)
  {
    var document := VouchedDocument(t, texts, selection, url, requireMetadata);
    if document.None? then None
    else
      var networks := ParseDocument(t, document.value, selection);
      if networks.None? then None else Some(Batch(networks.value, MatchingMetadata(t, texts, url, requireMetadata).1))
  }

  // One set of files is usable exactly when the document is there and gives networks, the metadata
  // is for this URL up to surrounding blanks and has the document's digest, and the recorded scope
  // fits. Without metadata only the files of the earlier layout count, and only for the default URL.
  lemma VouchedExactly(t: Kit, texts: Texts, selection: Selection, url: string, requireMetadata: bool)
    requires Faithful(t.codec)
    ensures var r := ReadTexts(t, texts, selection, url, requireMetadata);
            var metadata := if texts.metadata.None? then None else t.readMeta(texts.metadata.value);
            var sidecar := if texts.categories.None? then None else t.readSidecar(texts.categories.value);
            && (r.Some? <==>
                  && texts.raw.Some? && t.parseJson(texts.raw.value).Some?
                  && Extract(t.codec, t.parseJson(texts.raw.value).value, selection).Some?
                  && (requireMetadata ==> metadata.Some? && sidecar.Some?)
                  && (metadata.None? ==> url == "https://api.github.com/meta")
                  && (metadata.Some? ==>
                        Trim(metadata.value.url) == Trim(url)
                        && HexLower(t.sha(texts.raw.value)) == metadata.value.sha256Raw)
                  && (selection.Selected? ==>
                        sidecar.Some? && sidecar.value.mode == "selected"
                        && NormalizeCategories(sidecar.value.categories) == selection.categories))
            && (r.Some? ==>
                  r.value.metadata == metadata
                  && Extract(t.codec, t.parseJson(texts.raw.value).value, selection) == Some(r.value.networks))
  {
    hide Extract, Trim, HexLower, NormalizeCategories;
  }

  // And a generation is usable exactly when it matches its id and its files are usable.
  lemma UsableExactly(t: Kit, disk: Disk, id: string, w: Wanted)
    requires Faithful(t.codec)
    ensures ReadCandidate(t, disk, id, w).Some? <==>
            && ContentsMatch(t.sha, disk, id, GithubLimits())
            && var dir := disk.generations[id];
            var texts := Texts(
              raw := ReadMember(dir, Limit(Ascii("raw.json"), 0x80_0000)),
              metadata := ReadMember(dir, Limit(Ascii("meta.json"), 0x8_0000)),
              categories := ReadMember(dir, Limit(Ascii("categories.json"), 0x4_0000)));
            ReadTexts(t, texts, w.selection, w.url, true).Some?
  {
    hide ReadTexts, ReadMember;
    assert GithubLimits() == [Limit(Ascii("raw.json"), 0x80_0000), Limit(Ascii("meta.json"), 0x8_0000),
                              Limit(Ascii("categories.json"), 0x4_0000)];
  }

  method ReadTextsNow(t: Kit, texts: Texts, selection: Selection, url: string, requireMetadata: bool)
    returns (r: Option<Batch>)
    requires Faithful(t.codec)
    ensures r == ReadTexts(t, texts, selection, url, requireMetadata)
  {
    var document := VouchedDocument(t, texts, selection, url, requireMetadata);
    if document.None? { return None; }
    var networks := ParseDocumentNow(t, document.value, selection);
    if networks.None? { return None; }
    return Some(Batch(networks.value, MatchingMetadata(t, texts, url, requireMetadata).1));
  }

  // ---- Current, previous, legacy -----------------------------------------------------------

  function GithubLimits(): seq<Limit> {
    [Limit(RawJson(), RAW_READ_LIMIT), Limit(MetadataFile(), META_READ_LIMIT),
      Limit(CategoryFile(), CATEGORY_READ_LIMIT)]
  }

  function TextsOf(dir: Directory): Texts {
    Texts(ReadMember(dir, GithubLimits()[0]), ReadMember(dir, GithubLimits()[1]), ReadMember(dir, GithubLimits()[2]))
  }

  // What to look for, and where the files of an earlier layout are.
  datatype Wanted = Wanted(selection: Selection, url: string, legacy: Texts)

  ghost function ReadCandidate(t: Kit, disk: Disk, id: string, w: Wanted): Option<Batch>
    requires Faithful(t.codec)
  {
    if ContentsMatch(t.sha, disk, id, GithubLimits())
    then ReadTexts(t, TextsOf(disk.generations[id]), w.selection, w.url, true) else None
  }

  // Every usable copy among these generations, in order, with its id.
  ghost function UsableAmong(t: Kit, disk: Disk, ids: seq<string>, w: Wanted): seq<(Batch, Option<string>)>
    requires Faithful(t.codec)
  {
    if ids == [] then []
    else
      var rest, batch := UsableAmong(t, disk, ids[..|ids| - 1], w), ReadCandidate(t, disk, ids[|ids| - 1], w);
      if batch.Some? then rest + [(batch.value, Some(ids[|ids| - 1]))] else rest
  }

  // Every usable copy: selected generations first, the legacy files last.
  ghost function UsableCopies(t: Kit, disk: Disk, w: Wanted): seq<(Batch, Option<string>)>
    requires Faithful(t.codec)
  {
    var legacy := ReadTexts(t, w.legacy, w.selection, w.url, false);
    UsableAmong(t, disk, Candidates(disk), w) + if legacy.Some? then [(legacy.value, None)] else []
  }

  datatype Cache = Cache(
    networks: Option<seq<CanonicalCidr>>,
    metadata: Option<GithubMetadata>,
    generationId: Option<string>,
    previous: Option<Batch>)

  // The first two usable copies; without any, only the legacy metadata.
  ghost function ReadCache(t: Kit, disk: Disk, w: Wanted): Cache
    requires Faithful(t.codec)
  {
    var copies := UsableCopies(t, disk, w);
    if copies == [] then Cache(None, MatchingMetadata(t, w.legacy, w.url, false).1, None, None)
    else
      var second := if |copies| > 1 then Some(copies[1].0) else None;
      Cache(Some(copies[0].0.networks), copies[0].0.metadata, copies[0].1, second)
  }

  lemma {:induction false} LegacyMetadataMatches(t: Kit, w: Wanted)
    requires Faithful(t.codec)
    ensures var legacy := ReadTexts(t, w.legacy, w.selection, w.url, false);
            legacy.Some? ==> legacy.value.metadata == MatchingMetadata(t, w.legacy, w.url, false).1
  {
  }

  // The loop over candidates: it stops at the second usable one.
  method LoadCache(t: Kit, disk: Disk, w: Wanted) returns (r: Cache)
    requires Faithful(t.codec)
    ensures r == ReadCache(t, disk, w)
  {
    hide ReadTexts, Candidates, GithubLimits;
    var candidates := Candidates(disk);
    var selected: Option<Cache> := None;
    ghost var seen := [];
    assert candidates[..0] == [];
    for k := 0 to |candidates|
      invariant seen == UsableAmong(t, disk, candidates[..k], w)
      invariant |seen| <= 1 && (selected.Some? <==> seen != [])
      invariant selected.Some? ==>
                selected.value == Cache(Some(seen[0].0.networks), seen[0].0.metadata, seen[0].1, None)
    {
      assert candidates[..k + 1][..k] == candidates[..k];
      if ContentsMatch(t.sha, disk, candidates[k], GithubLimits()) {
        var batch := ReadTextsNow(t, TextsOf(disk.generations[candidates[k]]), w.selection, w.url, true);
        if batch.Some? {
          seen := seen + [(batch.value, Some(candidates[k]))];
          if selected.Some? {
            PrefixOfUsable(t, disk, candidates, k + 1, w);
            return selected.value.(previous := batch);
          }
          selected := Some(Cache(Some(batch.value.networks), batch.value.metadata, Some(candidates[k]), None));
        }
      }
    }
    assert candidates[..|candidates|] == candidates;
    var legacy := ReadTextsNow(t, w.legacy, w.selection, w.url, false);
    if selected.Some? { return selected.value.(previous := legacy); }
    LegacyMetadataMatches(t, w);
    var networks := if legacy.Some? then Some(legacy.value.networks) else None;
    return Cache(networks, MatchingMetadata(t, w.legacy, w.url, false).1, None, None);
  }

  lemma {:induction false} PrefixOfUsable(t: Kit, disk: Disk, ids: seq<string>, k: nat, w: Wanted)
    requires Faithful(t.codec) && k <= |ids|
    ensures UsableAmong(t, disk, ids[..k], w) <= UsableAmong(t, disk, ids, w)
  {
    hide ReadCandidate;
    if k < |ids| {
      PrefixOfUsable(t, disk, ids[..|ids| - 1], k, w);
      assert ids[..|ids| - 1][..k] == ids[..k];
    } else {
      assert ids[..k] == ids;
    }
  }

  // ---- Preview -----------------------------------------------------------------------------

  // A choice with the copy to fall back to, as the preview and the sync make it.
  datatype Choice = Choice(networks: seq<CanonicalCidr>, provenance: Provenance, fallback: Option<seq<CanonicalCidr>>)

  function NetworksOf(batch: Option<Batch>): Option<seq<CanonicalCidr>> {
    if batch.Some? then Some(batch.value.networks) else None
  }

  function ReadOnlyCachedGithub(cache: Cache, provenance: Provenance): Choice {
    if cache.networks.None? then Choice([], Unavailable, NetworksOf(cache.previous))
    else Choice(cache.networks.value, provenance, NetworksOf(cache.previous))
  }

  ghost function ValidateGithub(t: Kit, response: Response, maxBytes: nat,
          selection: Selection): Option<seq<CanonicalCidr>>
    requires Faithful(t.codec)
  {
    if !IsSuccess(response.status) || |response.body| > maxBytes then None
    else ParseDocument(t, response.body, selection)
  }

  method ValidateGithubNow(t: Kit, response: Response, maxBytes: nat, selection: Selection)
    returns (r: Option<seq<CanonicalCidr>>)
    requires Faithful(t.codec)
    ensures r == ValidateGithub(t, response, maxBytes, selection)
  {
    if !IsSuccess(response.status) { return None; }
    if |response.body| > maxBytes { return None; }
    r := ParseDocumentNow(t, response.body, selection);
  }

  function FetchGithub(cache: Cache, client: Client): Fetched {
    var etag := if cache.metadata.Some? then cache.metadata.value.etag else None;
    var lastModified := if cache.metadata.Some? then cache.metadata.value.lastModified else None;
    FetchWithConditionalCache(client, etag, lastModified, cache.networks.Some?)
  }

  ghost function PreviewGithub(t: Kit, disk: Disk, client: Option<Client>, w: Wanted, maxBytes: nat): Choice
    requires Faithful(t.codec)
  {
    var cache := ReadCache(t, disk, w);
    if client.None? then ReadOnlyCachedGithub(cache, FromCache)
    else
      match FetchGithub(cache, client.value)
      case CacheNotModified => ReadOnlyCachedGithub(cache, FromCache)
      case FallbackCache => ReadOnlyCachedGithub(cache, FromFallbackCache)
      case Network(response) =>
        var networks := ValidateGithub(t, response, maxBytes, w.selection);
        if networks.None? then ReadOnlyCachedGithub(cache, FromFallbackCache)
        else Choice(networks.value, FromNetwork, cache.networks)
  }

  // ---- Sync --------------------------------------------------------------------------------

  datatype PreparedGithub =
    | GithubStagingFailed
    | PreparedGithub(
        networks: seq<CanonicalCidr>,
        source: Source,
        metadata: Option<GithubMetadata>,
        fallback: Option<Batch>,
        promotion: Option<StagedGeneration>,
        stagingFailed: bool)

  function PreparedFallback(cache: Cache, stagingFailed: bool): PreparedGithub {
    if cache.networks.Some?
    then PreparedGithub(cache.networks.value, FallbackSource, cache.metadata, cache.previous, None, stagingFailed)
    else PreparedGithub([], EmptySource, cache.metadata, cache.previous, None, stagingFailed)
  }

  function GithubFiles(raw: Bytes, categories: Bytes, metadata: Bytes): seq<File> {
    [File(RawJson(), raw), File(CategoryFile(), categories), File(MetadataFile(), metadata)]
  }

  function GithubMetadataFor(t: Kit, url: string, response: Response): GithubMetadata {
    GithubMetadata(url, response.etag, response.lastModified, Sha256Text(t, response.body))
  }

  function GithubFilesFor(t: Kit, w: Wanted, response: Response): seq<File> {
    GithubFiles(response.body, t.writeSidecar(ToSidecar(w.selection)),
      t.writeMeta(GithubMetadataFor(t, w.url, response)))
  }

  lemma GithubNames()
    ensures |RawJson()| == 8 && |MetadataFile()| == 9 && |CategoryFile()| == 15
    ensures IsSafeFileName(RawJson()) && IsSafeFileName(MetadataFile()) && IsSafeFileName(CategoryFile())
  {
  }

  lemma GithubFilesStageable(raw: Bytes, categories: Bytes, metadata: Bytes)
    ensures Stageable(GithubFiles(raw, categories, metadata))
  {
    hide IsSafeFileName, RawJson, CategoryFile, MetadataFile;
    GithubNames();
  }

  // The sync chose what the preview shows, the fallback included.
  predicate SameGithubChoice(p: Choice, r: PreparedGithub) {
    r.PreparedGithub? && !r.stagingFailed && p == Choice(r.networks, Corresponding(r.source), NetworksOf(r.fallback))
  }

  // Staging failed after a good response: the cache stands in, or there is nothing.
  predicate GithubFellBack(p: Choice, cache: Cache, r: PreparedGithub) {
    p.provenance.FromNetwork?
      && r == (if cache.networks.Some?
               then PreparedGithub(cache.networks.value, FallbackSource, cache.metadata, cache.previous, None, true)
               else GithubStagingFailed)
  }

  // What a refresh leaves to be promoted.
  ghost predicate PendingGithub(t: Kit, store: Store, cache: Cache, response: Response, w: Wanted, maxBytes: nat,
          r: PreparedGithub)
    requires Faithful(t.codec) && r.PreparedGithub? && r.promotion.Some?
    reads r.promotion.value, store
  {
    var g := r.promotion.value;
    && ValidateGithub(t, response, maxBytes, w.selection) == Some(r.networks) && r.source.NetworkSource?
    && r.metadata == Some(GithubMetadataFor(t, w.url, response))
    && g.store == store && g.Ready() && !g.promoted
    && g.files == ByName(GithubFilesFor(t, w, response))
    && g.generationId == GenerationId(t.sha, GithubFilesFor(t, w, response))
    && g.previous == NextPrevious(store.disk, g.generationId, cache.generationId)
    && (cache.generationId == Some(g.generationId) ==> !g.removeOnDrop)
  }

  // The cache's own copy, as the fallback of what replaces it.
  function FormerCopy(cache: Cache): Option<Batch> {
    if cache.networks.Some? then Some(Batch(cache.networks.value, cache.metadata)) else None
  }

  method HandleGithubResponse(t: Kit, store: Store, cache: Cache, response: Response, w: Wanted, maxBytes: nat)
    returns (r: PreparedGithub)
    requires Faithful(t.codec) && store.Valid() && store.sha == t.sha
    requires cache.generationId.Some? ==> cache.generationId.value in store.disk.generations
    modifies store
    ensures store.Valid() && Kept(old(store.Now()), store.Now(), {})
    ensures var networks := ValidateGithub(t, response, maxBytes, w.selection);
            var p := if networks.None? then ReadOnlyCachedGithub(cache, FromFallbackCache)
              else Choice(networks.value, FromNetwork, cache.networks);
            && (SameGithubChoice(p, r) || GithubFellBack(p, cache, r))
            && (AllWork(store.world, old(store.clock)) && store.NameFree(old(store.counter), old(store.disk)) ==>
              SameGithubChoice(p, r))
    ensures r.PreparedGithub? ==> (r.promotion.Some? <==> r.source.NetworkSource?) && !r.source.NotModifiedSource?
    ensures r.PreparedGithub? && r.promotion.None? ==> r.metadata == cache.metadata && r.fallback == cache.previous
    ensures r.PreparedGithub? && r.promotion.Some? ==> r.fallback == FormerCopy(cache)
    ensures r.PreparedGithub? && r.promotion.Some? ==>
              fresh(r.promotion.value) && PendingGithub(t, store, cache, response, w, maxBytes, r)
  {
    hide Kept, ValidateGithub, ByName, GenerationId, NextPrevious, Stageable, IsSafeFileName, RawJson, CategoryFile,
      MetadataFile;
    KeptSelf(store.Now(), {});
    var networks := ValidateGithubNow(t, response, maxBytes, w.selection);
    if networks.None? { return PreparedFallback(cache, false); }
    var metadata := GithubMetadataFor(t, w.url, response);
    var files := GithubFiles(response.body, t.writeSidecar(ToSidecar(w.selection)), t.writeMeta(metadata));
    GithubFilesStageable(response.body, t.writeSidecar(ToSidecar(w.selection)), t.writeMeta(metadata));
    StageableParts(files);
    ghost var p0 := store.Now();
    var staged := store.StageGeneration(files, cache.generationId);
    if !staged.Staged? {
      var fallback := PreparedFallback(cache, true);
      if fallback.source.EmptySource? { return GithubStagingFailed; }
      return fallback;
    }
    KeptManifest(p0, store.Now(), {});
    NextIsTheSame(p0.disk, store.disk, staged.generation.generationId, cache.generationId);
    return PreparedGithub(networks.value, NetworkSource, Some(metadata), FormerCopy(cache), Some(staged.generation),
      false);
  }

  lemma {:induction false} SameUsable(t: Kit, d: Disk, e: Disk, ids: seq<string>, w: Wanted)
    requires Faithful(t.codec) && SameSelected(d, e) && forall id :: id in ids ==> id in Candidates(d)
    ensures UsableAmong(t, d, ids, w) == UsableAmong(t, e, ids, w)
  {
    hide ReadTexts, Candidates;
    if ids == [] {
    } else {
      assert ids[|ids| - 1] in ids;
      SameUsable(t, d, e, ids[..|ids| - 1], w);
    }
  }

  // The generation of the first copy is selected, there, and usable.
  lemma CachedIsThere(t: Kit, disk: Disk, w: Wanted)
    requires Faithful(t.codec)
    ensures var cache := ReadCache(t, disk, w);
            cache.generationId.Some? ==>
              var id := cache.generationId.value;
              id in Candidates(disk) && id in disk.generations && ContentsMatch(t.sha, disk, id, GithubLimits())
              && ReadCandidate(t, disk, id, w).Some?
  {
    hide ReadTexts, Candidates, ReadMembers, GenerationId, GithubLimits;
    UsableAreCandidates(t, disk, Candidates(disk), w);
    var among := UsableAmong(t, disk, Candidates(disk), w);
    if among != [] { assert UsableCopies(t, disk, w)[0] == among[0]; }
  }

  lemma {:induction false} UsableAreCandidates(t: Kit, disk: Disk, ids: seq<string>, w: Wanted)
    requires Faithful(t.codec)
    ensures forall k :: 0 <= k < |UsableAmong(t, disk, ids, w)| ==>
              var copy := UsableAmong(t, disk, ids, w)[k];
              copy.1.Some? && copy.1.value in ids && ReadCandidate(t, disk, copy.1.value, w) == Some(copy.0)
    ensures UsableAmong(t, disk, ids, w) == [] ==> forall id :: id in ids ==> ReadCandidate(t, disk, id, w).None?
  {
    hide ReadCandidate;
    if ids == [] {
    } else {
      var front, last := ids[..|ids| - 1], ids[|ids| - 1];
      UsableAreCandidates(t, disk, front, w);
      assert ids == front + [last];
    }
  }

  lemma CleanupKeepsCopies(t: Kit, p: Past, q: Past, w: Wanted)
    requires Faithful(t.codec) && Kept(p, q, CleanupScope(p.disk)) && q.disk.generations.Keys <= p.disk.generations.Keys
    ensures ReadCache(t, p.disk, w) == ReadCache(t, q.disk, w)
  {
    hide UsableAmong, ReadTexts;
    forall id | id in Candidates(p.disk)
      ensures (id in p.disk.generations <==> id in q.disk.generations)
              && (id in p.disk.generations ==> p.disk.generations[id] == q.disk.generations[id])
    {
      SelectedOutsideCleanup(p.disk, id);
    }
    SameUsable(t, p.disk, q.disk, Candidates(p.disk), w);
  }

  // ---- What a refresh is to decide ---------------------------------------------------------

  // The answer that counts; see `Heard` for feeds.
  function HeardGithub(client: Client, cache: Cache): Answer {
    var first :=
      match cache.metadata
      case Some(m) => client(0, Request(ifNoneMatch := m.etag, ifModifiedSince := m.lastModified))
      case None => client(0, Request(None, None));
    if first.Answered? && first.response.status == 304 && cache.networks.None? then client(1, Request(None, None))
    else first
  }

  // A success within the size limit, whose document gives these networks for the selection.
  ghost predicate Gives(t: Kit, response: Response, selection: Selection, maxBytes: nat, networks: seq<CanonicalCidr>)
    requires Faithful(t.codec)
  {
    && 200 <= response.status < 300 && |response.body| <= maxBytes
    && t.parseJson(response.body).Some?
    && Extract(t.codec, t.parseJson(response.body).value, selection) == Some(networks)
  }

  ghost predicate GivesNone(t: Kit, response: Response, selection: Selection, maxBytes: nat)
    requires Faithful(t.codec)
  {
    forall networks: seq<CanonicalCidr> :: !Gives(t, response, selection, maxBytes, networks)
  }

  // The list is replaced by what the server sent, and the cache's copy is what to fall back to.
  ghost predicate ReplacedGithub(t: Kit, cache: Cache, response: Response, w: Wanted, maxBytes: nat, r: PreparedGithub)
    requires Faithful(t.codec)
  {
    && r.PreparedGithub? && Gives(t, response, w.selection, maxBytes, r.networks) && r.source.NetworkSource?
    && r.promotion.Some? && !r.stagingFailed
    && r.metadata == Some(GithubMetadata(
      url := w.url,
      etag := response.etag,
      lastModified := response.lastModified,
      sha256Raw := HexLower(t.sha(response.body))))
    && (cache.networks.None? ==> r.fallback == None)
    && (cache.networks.Some? ==> r.fallback == Some(Batch(cache.networks.value, cache.metadata)))
  }

  // What a refresh gives, by the cache and the answer that counts; `staged` tells whether staging works.
  ghost predicate GithubDecision(t: Kit, cache: Cache, client: Client, w: Wanted, maxBytes: nat, staged: bool,
          r: PreparedGithub)
    requires Faithful(t.codec)
  {
    var answer := HeardGithub(client, cache);
    match cache.networks
    case Some(networks) =>
      if answer.Answered? && answer.response.status == 304
      then r == PreparedGithub(networks, NotModifiedSource, cache.metadata, cache.previous, None, false)
      else if answer.Failed? || GivesNone(t, answer.response, w.selection, maxBytes)
      then r == PreparedGithub(networks, FallbackSource, cache.metadata, cache.previous, None, false)
      else if !staged then r == PreparedGithub(networks, FallbackSource, cache.metadata, cache.previous, None, true)
      else ReplacedGithub(t, cache, answer.response, w, maxBytes, r)
    case None =>
      if answer.Failed? || GivesNone(t, answer.response, w.selection, maxBytes)
      then r == PreparedGithub([], EmptySource, cache.metadata, cache.previous, None, false)
      else if !staged then r == GithubStagingFailed
      else ReplacedGithub(t, cache, answer.response, w, maxBytes, r)
  }

  function PreviousNetworks(cache: Cache): Option<seq<CanonicalCidr>> {
    match cache.previous
    case Some(batch) => Some(batch.networks)
    case None => None
  }

  // What a preview shows, by the same.
  ghost predicate GithubPreviewDecision(t: Kit, cache: Cache, client: Option<Client>, w: Wanted, maxBytes: nat,
          p: Choice)
    requires Faithful(t.codec)
  {
    var cached :=
      match cache.networks
      case Some(networks) => Choice(networks, FromCache, PreviousNetworks(cache))
      case None => Choice([], Unavailable, PreviousNetworks(cache));
    if client.None? then p == cached
    else
      var answer := HeardGithub(client.value, cache);
      if answer.Answered? && answer.response.status == 304 && cache.networks.Some? then p == cached
      else if answer.Failed? || GivesNone(t, answer.response, w.selection, maxBytes)
      then p == if cache.networks.Some? then cached.(provenance := FromFallbackCache) else cached
      else
        Gives(t, answer.response, w.selection, maxBytes, p.networks) && p.provenance.FromNetwork?
          && p.fallback == cache.networks
  }

  lemma GivesIsValidated(t: Kit, response: Response, selection: Selection, maxBytes: nat)
    requires Faithful(t.codec)
    ensures var networks := ValidateGithub(t, response, maxBytes, selection);
            && (networks.None? <==> GivesNone(t, response, selection, maxBytes))
            && (networks.Some? ==> Gives(t, response, selection, maxBytes, networks.value))
    ensures response.status == 304 ==> GivesNone(t, response, selection, maxBytes)
  {
    hide Extract;
    var networks := ValidateGithub(t, response, maxBytes, selection);
    if networks.Some? { assert Gives(t, response, selection, maxBytes, networks.value); }
  }

  // What a fetched document gives, in its own terms: the blocks found under the members whose keys
  // are selected, if every category is a key and the list is within the envelope.
  lemma GivesExactly(t: Kit, response: Response, selection: Selection, maxBytes: nat, networks: seq<CanonicalCidr>)
    requires Faithful(t.codec) && t.parseJson(response.body).Some? && DistinctKeys(t.parseJson(response.body).value)
    ensures Gives(t, response, selection, maxBytes, networks) <==>
            && 200 <= response.status < 300 && |response.body| <= maxBytes
            && Yields(t.codec, t.parseJson(response.body).value, selection, networks)
  {
    hide Extract, Yields;
    var value := t.parseJson(response.body).value;
    ExtractExactly(t.codec, value, selection);
    if Yields(t.codec, value, selection, networks) { OneYield(t.codec, value, selection, networks); }
  }

  lemma OneYield(codec: Codec, value: Value, selection: Selection, networks: seq<CanonicalCidr>)
    requires Faithful(codec) && DistinctKeys(value) && Yields(codec, value, selection, networks)
    ensures Extract(codec, value, selection) == Some(networks)
  {
    hide Extract, Covered, Chosen, Found, HasScalar, DistinctKeys;
    ExtractExactly(codec, value, selection);
    CidrOrder();
    SortedUnique(networks, Extract(codec, value, selection).value, CidrLess);
  }

  lemma GithubFetchedIsHeard(cache: Cache, client: Client)
    ensures var f, answer := FetchGithub(cache, client), HeardGithub(client, cache);
            && (f.FallbackCache? <==> answer.Failed?)
            && (f.CacheNotModified? <==> answer.Answered? && answer.response.status == 304 && cache.networks.Some?)
            && (f.Network? ==> answer == Answered(f.response))
  {
  }

  // The preview shows exactly that, online and offline.
  lemma PreviewGithubExactly(t: Kit, disk: Disk, client: Option<Client>, w: Wanted, maxBytes: nat)
    requires Faithful(t.codec)
    ensures GithubPreviewDecision(t, ReadCache(t, disk, w), client, w, maxBytes,
              PreviewGithub(t, disk, client, w, maxBytes))
  {
    hide ReadCache, ValidateGithub, Gives, GivesNone, FetchGithub, HeardGithub;
    var cache := ReadCache(t, disk, w);
    if client.Some? {
      GithubFetchedIsHeard(cache, client.value);
      var answer := HeardGithub(client.value, cache);
      if answer.Answered? { GivesIsValidated(t, answer.response, w.selection, maxBytes); }
    }
  }

  lemma GithubChoiceIsDecision(t: Kit, disk: Disk, client: Client, w: Wanted, maxBytes: nat, r: PreparedGithub)
    requires Faithful(t.codec)
    requires var cache, p := ReadCache(t, disk, w), PreviewGithub(t, disk, Some(client), w, maxBytes);
             SameGithubChoice(p, r) || GithubFellBack(p, cache, r)
    requires r.PreparedGithub? ==> (r.promotion.Some? <==> r.source.NetworkSource?)
    requires var cache := ReadCache(t, disk, w);
             && (r.PreparedGithub? && r.promotion.None? ==>
                   r.metadata == cache.metadata && r.fallback == cache.previous)
             && (r.PreparedGithub? && r.promotion.Some? ==>
                   && r.fallback == FormerCopy(cache) && HeardGithub(client, cache).Answered?
                   && Gives(t, HeardGithub(client, cache).response, w.selection, maxBytes, r.networks)
                   && r.metadata == Some(GithubMetadataFor(t, w.url, HeardGithub(client, cache).response)))
    ensures var cache, p := ReadCache(t, disk, w), PreviewGithub(t, disk, Some(client), w, maxBytes);
            && (SameGithubChoice(p, r) ==> GithubDecision(t, cache, client, w, maxBytes, true, r))
            && (GithubFellBack(p, cache, r) ==> GithubDecision(t, cache, client, w, maxBytes, false, r))
  {
    hide ReadCache, PreviewGithub, Gives, HeardGithub;
    PreviewGithubExactly(t, disk, Some(client), w, maxBytes);
  }

  // With a usable list there is always a list, and either it is the server's or it is the same.
  lemma GithubDecisionKeepsList(t: Kit, cache: Cache, client: Client, w: Wanted, maxBytes: nat, r: PreparedGithub)
    requires Faithful(t.codec)
    requires GithubDecision(t, cache, client, w, maxBytes, true, r)
             || GithubDecision(t, cache, client, w, maxBytes, false, r)
    ensures cache.networks.Some? ==>
              r.PreparedGithub? && !r.source.EmptySource?
              && (!r.source.NetworkSource? ==> r.networks == cache.networks.value)
  {
    hide Gives, GivesNone, HeardGithub;
  }

  // As for feeds: the cache and the answer alone decide the result and its fallback, apart from a
  // failure to stage; with a usable list in the cache there is always a list. The sync makes the
  // choice the preview shows, fallback included, unless staging fails.
  method PrepareGithub(t: Kit, store: Store, client: Client, w: Wanted, maxBytes: nat)
    returns (r: PreparedGithub, ghost cache: Cache)
    requires Faithful(t.codec) && store.Valid() && store.sha == t.sha
    modifies store
    ensures store.Valid() && cache == ReadCache(t, old(store.disk), w)
    ensures Kept(old(store.Now()), store.Now(), CleanupScope(old(store.disk)))
    ensures var p := PreviewGithub(t, old(store.disk), Some(client), w, maxBytes);
            && (SameGithubChoice(p, r) || GithubFellBack(p, cache, r))
            && (AllWork(store.world, old(store.clock)) && store.NameFree(old(store.counter), old(store.disk)) ==>
              SameGithubChoice(p, r))
    ensures GithubDecision(t, cache, client, w, maxBytes, true, r)
            || GithubDecision(t, cache, client, w, maxBytes, false, r)
    ensures AllWork(store.world, old(store.clock)) && store.NameFree(old(store.counter), old(store.disk)) ==>
              GithubDecision(t, cache, client, w, maxBytes, true, r)
    ensures cache.networks.Some? ==>
              r.PreparedGithub? && !r.source.EmptySource?
              && (!r.source.NetworkSource? ==> r.networks == cache.networks.value)
    ensures r.PreparedGithub? ==> (r.promotion.Some? <==> r.source.NetworkSource?)
    ensures r.PreparedGithub? && r.promotion.Some? ==>
              && FetchGithub(cache, client).Network? && fresh(r.promotion.value)
              && PendingGithub(t, store, cache, FetchGithub(cache, client).response, w, maxBytes, r)
  {
    hide Kept, ReadCache, ValidateGithub, Gives, GivesNone, FetchGithub, HeardGithub, GithubDecision, CleanupScope,
      ByName, GenerationId, NextPrevious;
    ghost var p0 := store.Now();
    store.CleanupUnselectedGenerations();
    ghost var p1, scope := store.Now(), CleanupScope(p0.disk);
    CleanupKeepsCopies(t, p0, store.Now(), w);
    assert store.NameFree(old(store.counter), old(store.disk)) ==> store.NameFree(store.counter, store.disk);
    var read := LoadCache(t, store.disk, w);
    cache := read;
    CachedIsThere(t, store.disk, w);
    GithubFetchedIsHeard(read, client);
    match FetchGithub(read, client) {
      case CacheNotModified =>
        if read.networks.Some? {
          r := PreparedGithub(read.networks.value, NotModifiedSource, read.metadata, read.previous, None, false);
        } else {
          r := PreparedFallback(read, false);
        }
      case FallbackCache => r := PreparedFallback(read, false);
      case Network(response) =>
        r := HandleGithubResponse(t, store, read, response, w, maxBytes);
        KeptOn(p0, p1, store.Now(), scope, {}, scope);
        GivesIsValidated(t, response, w.selection, maxBytes);
    }
    GithubChoiceIsDecision(t, p0.disk, client, w, maxBytes, r);
    GithubDecisionKeepsList(t, cache, client, w, maxBytes, r);
  }

  // ---- From a promotion to the next read ---------------------------------------------------

  predicate ReadableGithub(t: Kit, w: Wanted, response: Response) {
    && |t.writeMeta(GithubMetadataFor(t, w.url, response))| <= META_READ_LIMIT
    && |t.writeSidecar(ToSidecar(w.selection))| <= CATEGORY_READ_LIMIT
  }

  // A directory that holds what a refresh staged reads back as the blocks that were loaded,
  // exactly when the two small files stay within their read limits.
  lemma HeldGithubReads(t: Kit, disk: Disk, id: string, w: Wanted, response: Response, maxBytes: nat,
          networks: seq<CanonicalCidr>)
    requires KitSound(t) && NormalSelection(w.selection) && maxBytes <= RAW_READ_LIMIT
    requires ValidateGithub(t, response, maxBytes, w.selection) == Some(networks)
    requires id == GenerationId(t.sha, GithubFilesFor(t, w, response))
    requires id in disk.generations && GenerationStore.Holds(disk.generations[id], GithubFilesFor(t, w, response))
    ensures ReadCandidate(t, disk, id, w) ==
            if ReadableGithub(t, w, response) then Some(Batch(networks, Some(GithubMetadataFor(t, w.url, response))))
              else None
  {
    hide GenerationId, RawJson, CategoryFile, MetadataFile, HexLower, Trim, Extract, CacheScopeCompatible;
    var files, dir := GithubFilesFor(t, w, response), disk.generations[id];
    var inOrder := [files[0], files[2], files[1]];
    assert files[0] == File(RawJson(), response.body) && files[1].name == CategoryFile()
      && files[2].name == MetadataFile();
    MembersRead(dir, files);
    OwnScope(w.selection);
    assert forall f :: f in inOrder <==> f in files;
    IdIgnoresOrder(t.sha, inOrder, files);
    if ReadableGithub(t, w, response) { HeldReadWithin(dir, inOrder, GithubLimits()); }
  }

  // After a promotion the cache starts with exactly the blocks that were loaded, unless other files
  // with the same digest were there, which are then exhibited.
  lemma PromotedGithubReads(t: Kit, disk: Disk, id: string, w: Wanted, response: Response, maxBytes: nat,
          networks: seq<CanonicalCidr>)
    returns (clash: bool)
    requires KitSound(t) && NormalSelection(w.selection) && maxBytes <= RAW_READ_LIMIT
    requires ValidateGithub(t, response, maxBytes, w.selection) == Some(networks) && ReadableGithub(t, w, response)
    requires var files := GithubFilesFor(t, w, response);
             id == GenerationId(t.sha, files) && ContentsMatch(t.sha, disk, id, OwnLimits(ByName(files)))
    requires Candidates(disk) != [] && Candidates(disk)[0] == id
    ensures clash ==> OtherFiles(t.sha, disk, id, GithubFilesFor(t, w, response))
    ensures !clash ==>
              var cache := ReadCache(t, disk, w);
              cache.networks == Some(networks) && cache.generationId == Some(id)
              && cache.metadata == Some(GithubMetadataFor(t, w.url, response))
  {
    hide GenerationId, ByName, GenerationStore.Holds, ReadMembers, ReadCandidate, Clash, Candidates, ValidateGithub,
      GithubFilesFor;
    var files := GithubFilesFor(t, w, response);
    var dir, own := disk.generations[id], OwnLimits(ByName(files));
    var read := ReadMembers(dir, own).value;
    if Clash(t.sha, read, files) { return true; }
    GithubFilesSmall(t, w, response, maxBytes);
    OwnLimitsBounded(files);
    SameIdHolds(t.sha, dir, own, read, files);
    HeldGithubReads(t, disk, id, w, response, maxBytes, networks);
    var ids := Candidates(disk);
    PrefixOfUsable(t, disk, ids, 1, w);
    assert ids[..1][..0] == [] && ids[..1][0] == id;
    return false;
  }

  lemma GithubFilesSmall(t: Kit, w: Wanted, response: Response, maxBytes: nat)
    requires Faithful(t.codec) && maxBytes <= RAW_READ_LIMIT
    requires ValidateGithub(t, response, maxBytes, w.selection).Some? && ReadableGithub(t, w, response)
    ensures Addressable(GithubFilesFor(t, w, response))
  {
    hide RawJson, CategoryFile, MetadataFile;
    GithubNames();
  }

  // ---- Sync after sync ---------------------------------------------------------------------

  ghost predicate LoadsGithub(t: Kit, disk: Disk, w: Wanted)
    requires Faithful(t.codec)
  {
    ReadCache(t, disk, w).networks.Some?
  }

  ghost predicate LoadsGithubOn(t: Kit, p: Past, q: Past, w: Wanted)
    requires Faithful(t.codec)
  {
    && p.log <= q.log && LoadsGithub(t, q.disk, w)
    && forall i :: |p.log| <= i < |q.log| ==> LoadsGithub(t, q.log[i], w)
  }

  // A usable candidate, or usable legacy files, are all it takes.
  lemma LoadsFrom(t: Kit, disk: Disk, w: Wanted)
    requires Faithful(t.codec)
    ensures LoadsGithub(t, disk, w) <==>
            (exists id :: id in Candidates(disk) && ReadCandidate(t, disk, id, w).Some?)
            || ReadTexts(t, w.legacy, w.selection, w.url, false).Some?
  {
    hide ReadCandidate, ReadTexts, Candidates;
    var ids := Candidates(disk);
    UsableAreCandidates(t, disk, ids, w);
    var among := UsableAmong(t, disk, ids, w);
    if among != [] { assert among[0].1.value in ids; }
  }

  lemma GoodLoadsGithub(t: Kit, d: Disk, e: Disk, id: string, w: Wanted, read: seq<File>)
    requires Faithful(t.codec) && ReadCandidate(t, d, id, w).Some?
    requires GoodCopy(t.sha, d, id, GithubLimits(), read) && GoodCopy(t.sha, e, id, GithubLimits(), read)
    ensures LoadsGithub(t, e, w)
  {
    hide ReadTexts, Candidates, GenerationId, RawJson, MetadataFile, CategoryFile, ReadCache;
    MembersAre(d.generations[id], GithubLimits(), read);
    MembersAre(e.generations[id], GithubLimits(), read);
    assert TextsOf(d.generations[id]) == TextsOf(e.generations[id]);
    LoadsFrom(t, e, w);
  }

  lemma GoodLoadsGithubOn(t: Kit, p: Past, q: Past, id: string, w: Wanted, read: seq<File>)
    requires Faithful(t.codec) && ReadCandidate(t, p.disk, id, w).Some?
    requires GoodCopy(t.sha, p.disk, id, GithubLimits(), read) && GoodOn(t.sha, p, q, id, GithubLimits(), read)
    ensures LoadsGithubOn(t, p, q, w)
  {
    hide GoodCopy, LoadsGithub, ReadCandidate;
    GoodLoadsGithub(t, p.disk, q.disk, id, w, read);
    forall i | |p.log| <= i < |q.log| ensures LoadsGithub(t, q.log[i], w) {
      GoodLoadsGithub(t, p.disk, q.log[i], id, w, read);
    }
  }

  lemma NoneUsable(t: Kit, disk: Disk, w: Wanted)
    requires Faithful(t.codec)
    ensures ReadCache(t, disk, w).generationId.None? ==> UsableAmong(t, disk, Candidates(disk), w) == []
  {
    hide ReadCandidate, ReadTexts, Candidates;
    var among := UsableAmong(t, disk, Candidates(disk), w);
    UsableAreCandidates(t, disk, Candidates(disk), w);
    if among != [] { assert UsableCopies(t, disk, w)[0] == among[0]; }
  }

  lemma LegacyLoadsGithubOn(t: Kit, p: Past, q: Past, w: Wanted)
    requires Faithful(t.codec) && LoadsGithub(t, p.disk, w) && ReadCache(t, p.disk, w).generationId.None?
             && p.log <= q.log
    ensures LoadsGithubOn(t, p, q, w)
  {
    hide ReadCandidate, ReadTexts, Candidates;
    UsableAreCandidates(t, p.disk, Candidates(p.disk), w);
    NoneUsable(t, p.disk, w);
    LoadsFrom(t, p.disk, w);
    forall e: Disk ensures LoadsGithub(t, e, w) { LoadsFrom(t, e, w); }
  }

  // The small files are shorter than a machine word counts.
  ghost predicate GithubInMemory(t: Kit, w: Wanted, client: Client) {
    && |t.writeSidecar(ToSidecar(w.selection))| < WORD_LIMIT
    && forall k, request :: FitsMemory(t, w, client(k, request))
  }

  predicate FitsMemory(t: Kit, w: Wanted, answer: Answer) {
    answer.Answered? ==> |t.writeMeta(GithubMetadataFor(t, w.url, answer.response))| < WORD_LIMIT
  }

  ghost predicate GithubClashesOn(t: Kit, disk: Disk, client: Client, w: Wanted)
    requires Faithful(t.codec)
  {
    var cache := ReadCache(t, disk, w);
    && FetchGithub(cache, client).Network?
    && OthersUnderId(t.sha, disk, GithubLimits(), GithubFilesFor(t, w, FetchGithub(cache, client).response))
  }

  // One sync: clean up, read, ask the server, stage, and promote or abandon. If the reader finds
  // networks at the start, it finds networks on every disk in between, whatever fails, or the copy
  // it found has the digest of other files. After a promotion the cache starts with what was loaded.
  method SyncGithub(t: Kit, store: Store, client: Client, w: Wanted, maxBytes: nat, admit: bool)
    returns (r: PreparedGithub, outcome: Refreshed, ghost clash: bool, ghost others: bool)
    requires KitSound(t) && store.Valid() && store.sha == t.sha && NormalSelection(w.selection)
    requires maxBytes <= RAW_READ_LIMIT && GithubInMemory(t, w, client)
    modifies store
    ensures store.Valid() && old(store.log) <= store.log
    ensures clash ==> GithubClashesOn(t, old(store.disk), client, w)
    ensures LoadsGithub(t, old(store.disk), w) && !clash ==> LoadsGithubOn(t, old(store.Now()), store.Now(), w)
    ensures outcome.Promoted? ==>
            r.PreparedGithub? && r.source.NetworkSource?
            && FetchGithub(ReadCache(t, old(store.disk), w), client).Network?
    ensures outcome.Promoted? && others ==>
              OtherFiles(t.sha, store.disk, outcome.id,
                GithubFilesFor(t, w, FetchGithub(ReadCache(t, old(store.disk), w), client).response))
    ensures outcome.Promoted? && !others
            && ReadableGithub(t, w, FetchGithub(ReadCache(t, old(store.disk), w), client).response) ==>
              var cache := ReadCache(t, store.disk, w);
              cache.networks == Some(r.networks) && cache.generationId == Some(outcome.id)
                && cache.metadata == r.metadata
  {
    hide Kept, GoodOn, GoodCopy, Clash, ReadCache, ReadCandidate, ValidateGithub, FetchGithub, ByName, GenerationId,
      NextPrevious, ContentsMatch, OwnLimits, Candidates, CleanupScope, GithubFilesFor, LoadsGithubOn, UniqueNames,
      Writable, OthersUnderId, NormalSelection, ReadableGithub, OtherFiles;
    ghost var start, cache := store.Now(), ReadCache(t, store.disk, w);
    ghost var scope, id := CleanupScope(start.disk), cache.generationId;
    ghost var response, files := FetchGithub(cache, client), [];
    ghost var read: seq<File> := [];
    clash, others, outcome := false, false, NotStaged;
    CachedIsThere(t, start.disk, w);
    GithubBounded();
    if id.Some? { read := GoodGithubRead(t.sha, start.disk, id.value); }
    ghost var again;
    r, again := PrepareGithub(t, store, client, w, maxBytes);
    if r.PreparedGithub? && r.promotion.Some? {
      files := GithubFilesFor(t, w, response.response);
      GithubFilesFit(t, w, client, cache, maxBytes, r.networks);
      outcome, clash := SettleKeeping(store, r.promotion.value, admit, start, id, GithubLimits(), read, files);
      if outcome.Promoted? && ReadableGithub(t, w, response.response) {
        FirstOf(store.disk, outcome.id);
        others := PromotedGithubReads(t, store.disk, outcome.id, w, response.response, maxBytes, r.networks);
      }
    } else if id.Some? {
      GoodSelected(t.sha, start.disk, id.value, GithubLimits(), read);
      KeepsGood(t.sha, start, store.Now(), scope, id.value, GithubLimits(), read);
    }
    KeptLog(start, store.Now(), scope);
    if LoadsGithub(t, start.disk, w) && !clash {
      if id.Some? { GoodLoadsGithubOn(t, start, store.Now(), id.value, w, read); }
      else { LegacyLoadsGithubOn(t, start, store.Now(), w); }
    }
  }

  lemma FirstOf(disk: Disk, id: string)
    ensures Candidates(disk) != [] ==> Candidates(disk)[0] in Candidates(disk)
  {
  }

  lemma GithubBounded()
    ensures Bounded(GithubLimits())
  {
    hide RawJson, MetadataFile, CategoryFile;
    GithubNames();
  }

  lemma GoodGithubRead(sha: Digest, d: Disk, id: string) returns (read: seq<File>)
    requires id in Candidates(d) && id in d.generations && ContentsMatch(sha, d, id, GithubLimits())
    ensures GoodCopy(sha, d, id, GithubLimits(), read)
  {
    read := ReadMembers(d.generations[id], GithubLimits()).value;
  }

  lemma GithubFilesFit(t: Kit, w: Wanted, client: Client, cache: Cache, maxBytes: nat, networks: seq<CanonicalCidr>)
    requires Faithful(t.codec) && GithubInMemory(t, w, client) && FetchGithub(cache, client).Network?
             && maxBytes <= RAW_READ_LIMIT
    requires ValidateGithub(t, FetchGithub(cache, client).response, maxBytes, w.selection) == Some(networks)
    ensures var files := GithubFilesFor(t, w, FetchGithub(cache, client).response);
            Addressable(files) && UniqueNames(files)
  {
    hide RawJson, MetadataFile, CategoryFile, IsSafeFileName, ParseDocument;
    GithubNames();
    FetchedGithubFrom(cache, client);
    var k, request :| client(k, request) == Answered(FetchGithub(cache, client).response);
    assert FitsMemory(t, w, client(k, request));
  }

  lemma FetchedGithubFrom(cache: Cache, client: Client)
    requires FetchGithub(cache, client).Network?
    ensures exists k, request :: client(k, request) == Answered(FetchGithub(cache, client).response)
  {
  }

  lemma LoadsGithubOnwards(t: Kit, p: Past, q: Past, r: Past, w: Wanted)
    requires Faithful(t.codec) && LoadsGithubOn(t, p, q, w) && LoadsGithubOn(t, q, r, w)
    ensures LoadsGithubOn(t, p, r, w)
  {
    hide LoadsGithub;
    forall i | |p.log| <= i < |q.log| ensures r.log[i] == q.log[i] {}
  }

  lemma LoadsGithubSelf(t: Kit, p: Past, w: Wanted)
    requires Faithful(t.codec)
    ensures LoadsGithub(t, p.disk, w) ==> LoadsGithubOn(t, p, p, w)
  {
  }

  lemma LoadsGithubAtEnd(t: Kit, p: Past, q: Past, w: Wanted)
    requires Faithful(t.codec) && LoadsGithubOn(t, p, q, w)
    ensures LoadsGithub(t, q.disk, w)
  {
  }

  // Over any number of syncs for the same selection and URL: once the reader finds networks, it
  // finds networks on every disk, with any fault at any step, unless a disk met on the way holds
  // other files under the id of what a response leads to.
  method SyncForever(t: Kit, store: Store, w: Wanted, maxBytes: nat, syncs: seq<FeedSync>)
    returns (ghost clash: Option<(nat, Disk)>)
    requires KitSound(t) && store.Valid() && store.sha == t.sha && NormalSelection(w.selection)
             && maxBytes <= RAW_READ_LIMIT
    requires forall k :: 0 <= k < |syncs| ==> GithubInMemory(t, w, syncs[k].client)
    modifies store
    ensures store.Valid() && old(store.log) <= store.log
    ensures clash.Some? ==>
              && clash.value.0 < |syncs| && Met(old(store.Now()), store.Now(), clash.value.1)
              && GithubClashesOn(t, clash.value.1, syncs[clash.value.0].client, w)
    ensures LoadsGithub(t, old(store.disk), w) && clash.None? ==> LoadsGithubOn(t, old(store.Now()), store.Now(), w)
  {
    hide LoadsGithub, LoadsGithubOn, GithubClashesOn, Met, Latest, GithubInMemory, NormalSelection;
    clash := None;
    ghost var loads := LoadsGithub(t, store.disk, w);
    LoadsGithubSelf(t, store.Now(), w);
    for k := 0 to |syncs|
      invariant store.Valid() && old(store.log) <= store.log
      invariant clash.Some? ==>
                  && clash.value.0 < k && Met(old(store.Now()), store.Now(), clash.value.1)
                  && GithubClashesOn(t, clash.value.1, syncs[clash.value.0].client, w)
      invariant loads && clash.None? ==>
                LoadsGithubOn(t, old(store.Now()), store.Now(), w) && LoadsGithub(t, store.disk, w)
    {
      ghost var before := store.Now();
      var r, outcome, found, others := SyncGithub(t, store, syncs[k].client, w, maxBytes, syncs[k].admit);
      if clash.Some? {
        StillMet(old(store.Now()), before, store.Now(), clash.value.1);
      } else if found {
        LatestIsMet(old(store.Now()), before, store.Now(), store.first);
        clash := Some((k, before.disk));
      } else if loads {
        LoadsGithubOnwards(t, old(store.Now()), before, store.Now(), w);
        LoadsGithubAtEnd(t, before, store.Now(), w);
      }
    }
  }

  // ---- Selections that change between syncs ------------------------------------------------

  // The category file of one selection is compatible with another exactly when that one takes
  // everything or is the same.
  lemma SelectionDecides(recorded: Selection, wanted: Selection)
    requires NormalSelection(recorded)
    ensures CacheScopeCompatible(wanted, Some(ToSidecar(recorded))) <==> wanted.All? || wanted == recorded
  {
    if recorded.Selected? {
      NormalizingTwice(recorded.categories);
    } else {
      assert "all"[0] != "selected"[0];
    }
  }

  // So what a sync staged for one selection is usable for another exactly when the scopes are
  // compatible and the document gives networks for it.
  lemma HeldForAnother(t: Kit, disk: Disk, id: string, w: Wanted, response: Response, other: Wanted)
    requires KitSound(t) && NormalSelection(w.selection) && ReadableGithub(t, w, response)
             && |response.body| <= RAW_READ_LIMIT
    requires other.url == w.url && id == GenerationId(t.sha, GithubFilesFor(t, w, response))
    requires id in disk.generations && GenerationStore.Holds(disk.generations[id], GithubFilesFor(t, w, response))
    ensures ReadCandidate(t, disk, id, other).Some? <==>
            (other.selection.All? || other.selection == w.selection)
              && ParseDocument(t, response.body, other.selection).Some?
  {
    hide GenerationId, RawJson, CategoryFile, MetadataFile, HexLower, Trim, ParseDocument, CacheScopeCompatible;
    var files, dir := GithubFilesFor(t, w, response), disk.generations[id];
    var inOrder := [files[0], files[2], files[1]];
    assert files[0] == File(RawJson(), response.body) && files[1].name == CategoryFile()
      && files[2].name == MetadataFile();
    MembersRead(dir, files);
    SelectionDecides(w.selection, other.selection);
    assert forall f :: f in inOrder <==> f in files;
    IdIgnoresOrder(t.sha, inOrder, files);
    HeldReadWithin(dir, inOrder, GithubLimits());
  }

  // A copy that is not usable for the current selection is not kept either.
  method LoseLastGithubCopy(t: Kit, disk: Disk, stagingName: nat -> string, w: Wanted, response: Response,
          earlier: Wanted)
    returns (store: Store)
    requires KitSound(t) && forall n: nat :: !IsGenerationId(stagingName(n))
    requires var files := GithubFilesFor(t, w, response);
             var id := GenerationId(t.sha, files);
             && ContentsMatch(t.sha, disk, id, OwnLimits(ByName(files))) && Candidates(disk) != [id]
    requires ReadCache(t, disk, w).generationId.None?
    requires ReadTexts(t, earlier.legacy, earlier.selection, earlier.url, false).None?
    ensures var id := GenerationId(t.sha, GithubFilesFor(t, w, response));
            && Candidates(store.disk) == [id] + Listed(NextPrevious(disk, id, ReadCache(t, disk, w).generationId))
            && !LoadsGithub(t, store.disk, earlier)
  {
    hide GithubFilesFor, GenerationId, ByName, ContentsMatch, OwnLimits, Candidates, ReadCache, ReadTexts;
    var files := GithubFilesFor(t, w, response);
    GithubFilesUnique(t, w, response);
    OrderedUnique(files);
    ProducedIdsAreIds(t.sha, files);
    OrderedId(t.sha, files);
    FirstIsAcceptable(GenerationId(t.sha, files));
    store := LoseFirst(t.sha, disk, stagingName, ByName(files), None);
    LoadsFrom(t, store.disk, earlier);
    MissingIsUnusable(t, store.disk, GenerationId(t.sha, files), earlier);
  }

  lemma GithubFilesUnique(t: Kit, w: Wanted, response: Response)
    ensures UniqueNames(GithubFilesFor(t, w, response))
  {
    hide RawJson, CategoryFile, MetadataFile;
    GithubNames();
  }

  lemma MissingIsUnusable(t: Kit, disk: Disk, id: string, w: Wanted)
    requires Faithful(t.codec) && id !in disk.generations
    ensures ReadCandidate(t, disk, id, w).None?
  {
  }
}
