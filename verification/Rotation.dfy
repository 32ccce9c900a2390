// Refresh after refresh over one store: the copy that was validated last stays selected and
// readable on every disk in between, whatever step fails.
module Rotation {
  import opened Options
  import opened Ordering
  import opened Framing
  import opened GenerationStore

  // A selected generation that reads back, within the reader's limits, as `read`.
  predicate GoodCopy(sha: Digest, d: Disk, id: string, limits: seq<Limit>, read: seq<File>) {
    && id in Candidates(d) && id in d.generations
    && ReadMembers(d.generations[id], limits) == Some(read) && GenerationId(sha, read) == id
  }

  // ---- Equal ids ---------------------------------------------------------------------------

  // Two file lists whose frames differ but have the same digest.
  ghost predicate Clash(sha: Digest, a: seq<File>, b: seq<File>) {
    Frame(ByName(a)) != Frame(ByName(b)) && sha(Frame(ByName(a))) == sha(Frame(ByName(b)))
  }

  predicate Bounded(limits: seq<Limit>) {
    forall i :: 0 <= i < |limits| ==> |limits[i].name| < WORD_LIMIT && limits[i].readLimit < WORD_LIMIT
  }

  lemma {:induction false} ReadFacts(dir: Directory, limits: seq<Limit>)
    ensures var read := ReadMembers(dir, limits);
            read.Some? ==>
              && |read.value| == |limits|
              && (forall i :: 0 <= i < |limits| ==>
                read.value[i].name == limits[i].name && |read.value[i].contents| <= limits[i].readLimit)
              && Holds(dir, read.value)
  {
    if limits == [] {
    } else {
      ReadFacts(dir, limits[1..]);
    }
  }

  // Files with the same id as a directory's content are that content, unless the digest clashes.
  lemma SameIdHolds(sha: Digest, dir: Directory, limits: seq<Limit>, read: seq<File>, files: seq<File>)
    requires ReadMembers(dir, limits) == Some(read) && Bounded(limits) && Addressable(files)
    requires GenerationId(sha, read) == GenerationId(sha, files) && !Clash(sha, read, files)
    ensures Holds(dir, files)
  {
    ReadFacts(dir, limits);
    IdIsDigest(sha, read, files);
    FramesTellFilesApart(read, files);
    forall i | 0 <= i < |files| ensures files[i].name in dir && dir[files[i].name] == Regular(files[i].contents) {
      assert files[i] in files && files[i] in read;
    }
  }

  // ---- One refresh -------------------------------------------------------------------------

  datatype Refreshed = NotStaged | Abandoned | PromotionFailed | Promoted(id: string)

  lemma GoodThroughKept(sha: Digest, p: Past, q: Past, but: set<string>, id: string, limits: seq<Limit>,
          read: seq<File>)
    requires GoodCopy(sha, p.disk, id, limits, read) && Kept(p, q, but) && id !in but
    ensures p.log <= q.log && GoodCopy(sha, q.disk, id, limits, read)
    ensures forall i :: |p.log| <= i < |q.log| ==> GoodCopy(sha, q.log[i], id, limits, read)
  {
  }

  ghost predicate GoodOn(sha: Digest, p: Past, q: Past, id: string, limits: seq<Limit>, read: seq<File>) {
    && p.log <= q.log && GoodCopy(sha, q.disk, id, limits, read)
    && forall i :: |p.log| <= i < |q.log| ==> GoodCopy(sha, q.log[i], id, limits, read)
  }

  lemma GoodOnwards(sha: Digest, p: Past, q: Past, r: Past, id: string, limits: seq<Limit>, read: seq<File>)
    requires GoodOn(sha, p, q, id, limits, read) && GoodOn(sha, q, r, id, limits, read)
    ensures GoodOn(sha, p, r, id, limits, read)
  {
    forall i | |p.log| <= i < |q.log| ensures r.log[i] == q.log[i] {}
  }

  lemma KeepsGood(sha: Digest, p: Past, q: Past, but: set<string>, id: string, limits: seq<Limit>, read: seq<File>)
    requires GoodCopy(sha, p.disk, id, limits, read) && Kept(p, q, but) && id !in but
    ensures GoodOn(sha, p, q, id, limits, read)
  {
    GoodThroughKept(sha, p, q, but, id, limits, read);
  }

  lemma GoodEnds(sha: Digest, p: Past, q: Past, id: string, limits: seq<Limit>, read: seq<File>)
    requires GoodOn(sha, p, q, id, limits, read)
    ensures GoodCopy(sha, q.disk, id, limits, read) && p.log <= q.log
  {
  }

  // A generation staged under the id of a good copy finds its files in place already.
  lemma IsHeld(sha: Digest, p: Past, q: Past, id: string, limits: seq<Limit>, read: seq<File>, files: seq<File>)
    requires GoodCopy(sha, p.disk, id, limits, read) && Kept(p, q, {})
    requires Bounded(limits) && Addressable(files) && UniqueNames(files)
    requires id == GenerationId(sha, files) && !Clash(sha, read, files)
    ensures id in q.disk.generations && Holds(q.disk.generations[id], ByName(files))
  {
    hide GenerationId, ByName;
    SameIdHolds(sha, p.disk.generations[id], limits, read, files);
    OrderedUnique(files);
    var o := ByName(files);
    forall i | 0 <= i < |o|
      ensures o[i].name in p.disk.generations[id] && p.disk.generations[id][o[i].name] == Regular(o[i].contents)
    {
      assert o[i] in o && o[i] in files;
    }
  }

  lemma GoodThroughFine(plan: Plan, d: Disk, e: Disk, good: string, limits: seq<Limit>, read: seq<File>)
    requires GoodCopy(plan.sha, d, good, limits, read) && Fine(plan, d, e)
    requires Acceptable(Manifest(SCHEMA_VERSION, plan.id, plan.previous))
    requires (good == plan.id && plan.held) || plan.previous == Some(good)
    ensures GoodCopy(plan.sha, e, good, limits, read)
  {
    hide GenerationId, ReadMembers, ContentsMatch;
  }

  lemma PromotionKeepsGood(plan: Plan, p: Past, q: Past, good: string, limits: seq<Limit>, read: seq<File>)
    requires GoodCopy(plan.sha, p.disk, good, limits, read) && Promoting(plan, p, q)
    requires Acceptable(Manifest(SCHEMA_VERSION, plan.id, plan.previous))
    requires (good == plan.id && plan.held) || plan.previous == Some(good)
    ensures GoodOn(plan.sha, p, q, good, limits, read)
  {
    hide Fine, GoodCopy, Acceptable;
    GoodThroughFine(plan, p.disk, q.disk, good, limits, read);
    forall i | |p.log| <= i < |q.log| ensures GoodCopy(plan.sha, q.log[i], good, limits, read) {
      GoodThroughFine(plan, p.disk, q.log[i], good, limits, read);
    }
  }

  // On every disk from `p` to `q` on which the manifest has changed, the generation comes first
  // and its contents match.
  ghost predicate RightSince(plan: Plan, p: Past, q: Past) {
    && p.log <= q.log && SelectedRight(plan.sha, q.disk, p.disk.manifestFile, plan.id, plan.previous, plan.limits)
    && forall i :: |p.log| <= i < |q.log| ==>
         SelectedRight(plan.sha, q.log[i], p.disk.manifestFile, plan.id, plan.previous, plan.limits)
  }

  lemma PromotionIsRight(plan: Plan, p: Past, q: Past)
    requires Promoting(plan, p, q)
    ensures RightSince(plan, p, q)
  {
    hide SelectedRight, Safe;
  }

  // Dropping other directories leaves it that way.
  lemma StillRight(plan: Plan, p: Past, q: Past, r: Past, but: set<string>)
    requires RightSince(plan, p, q) && Kept(q, r, but)
    requires plan.id !in but || q.disk.manifestFile == p.disk.manifestFile
    ensures RightSince(plan, p, r)
  {
    hide ReadMembers, GenerationId, Candidates;
    forall i | |p.log| <= i < |r.log|
      ensures SelectedRight(plan.sha, r.log[i], p.disk.manifestFile, plan.id, plan.previous, plan.limits)
    {
      if i < |q.log| { assert r.log[i] == q.log[i]; } else { SameManifestSelects(q.disk, r.log[i]); }
    }
    SameManifestSelects(q.disk, r.disk);
  }

  lemma NothingSince(plan: Plan, p: Past)
    ensures RightSince(plan, p, p)
  {
  }

  lemma MatchThroughKept(sha: Digest, p: Past, q: Past, but: set<string>, id: string, limits: seq<Limit>)
    requires ContentsMatch(sha, p.disk, id, limits) && Kept(p, q, but) && id !in but
    ensures ContentsMatch(sha, q.disk, id, limits) && Candidates(q.disk) == Candidates(p.disk)
  {
  }

  predicate Stageable(files: seq<File>) { files != [] && UniqueNames(files) && AllSafe(files) }

  // An existing directory of that name has no obstacle where a member belongs.
  ghost predicate Fits(d: Disk, id: string, files: seq<File>) {
    id in d.generations ==> Writable(d.generations[id], ByName(files))
  }

  // A directory that matches has no such obstacle.
  lemma {:induction false} MatchFits(sha: Digest, d: Disk, id: string, files: seq<File>)
    requires ContentsMatch(sha, d, id, OwnLimits(files))
    ensures Writable(d.generations[id], files)
  {
    ReadsFit(d.generations[id], files);
  }

  lemma {:induction false} ReadsFit(dir: Directory, files: seq<File>)
    requires ReadMembers(dir, OwnLimits(files)).Some?
    ensures Writable(dir, files)
  {
    if files == [] {
    } else {
      assert OwnLimits(files)[1..] == OwnLimits(files[1..]);
      ReadsFit(dir, files[1..]);
      forall i | 0 <= i < |files| && files[i].name in dir ensures dir[files[i].name].Regular? {
        if i > 0 { assert files[i] == files[1..][i - 1]; }
      }
    }
  }

  // Stages new files with the id the caller validated, and promotes or abandons them. If that
  // copy was good, it is good on every disk from here on, even if the manifest was replaced by a
  // step that reported failure; the only way out is a digest clash, which is then exhibited.
  method RefreshOnce(store: Store, files: seq<File>, validated: Option<string>, admit: bool, ghost limits: seq<Limit>,
          ghost read: seq<File>)
    returns (outcome: Refreshed, ghost clash: bool)
    requires store.Valid() && Bounded(limits) && Addressable(files)
    requires validated.Some? ==> GoodCopy(store.sha, store.disk, validated.value, limits, read)
    modifies store
    ensures store.Valid() && old(store.log) <= store.log
    ensures clash ==> validated == Some(GenerationId(store.sha, files)) && Clash(store.sha, read, files)
    ensures validated.Some? && !clash ==>
            GoodOn(store.sha, old(store.Now()), store.Now(), validated.value, limits, read)
    ensures outcome.Promoted? ==>
              && outcome.id == GenerationId(store.sha, files)
              && Candidates(store.disk) == [outcome.id] + Listed(NextPrevious(old(store.disk), outcome.id, validated))
              && ContentsMatch(store.sha, store.disk, outcome.id, OwnLimits(ByName(files)))
    ensures AllWork(store.world, old(store.clock)) && store.NameFree(old(store.counter), old(store.disk)) ==>
              (outcome.Promoted? <==>
                admit && Stageable(files) && Fits(old(store.disk), GenerationId(store.sha, files), files))
    ensures !admit ==> !outcome.Promoted? && store.disk.manifestFile == old(store.disk.manifestFile)
  {
    hide Kept, Safe, GoodOn, GoodCopy, Clash, ContentsMatch, ReadMembers, OwnLimits, Holds, Holding, ByName,
      GenerationId, NextPrevious, Candidates, Writable, UniqueNames, AllSafe, Acceptable;
    var sha := store.sha;
    ghost var p0 := store.Now();
    clash := false;
    var staged := store.StageGeneration(files, validated);
    ghost var p1 := store.Now();
    KeptManifest(p0, p1, {});
    if validated.Some? { KeepsGood(sha, p0, p1, {}, validated.value, limits, read); }
    if !staged.Staged? { return NotStaged, clash; }
    var g := staged.generation;
    ghost var id, held := g.generationId, g.Held();
    clash := validated == Some(id) && Clash(sha, read, files);
    NextFacts(sha, p0.disk, files, validated, limits, read);
    if validated == Some(id) && !clash { IsHeld(sha, p0, p1, id, limits, read, files); }
    if id in p0.disk.generations { KeptDirectory(p0, p1, {}, id); }
    if g.repair.None? { MatchFits(sha, store.disk, id, g.files); }
    if validated.Some? { GoodEnds(sha, p0, p1, validated.value, limits, read); }
    outcome := Settle(store, g, admit, if clash then None else validated, limits, read);
    if validated.Some? && !clash { GoodOnwards(sha, p0, p1, store.Now(), validated.value, limits, read); }
  }

  // Promotes or abandons what was staged. A good copy that the next manifest keeps stays good.
  // Once the manifest has changed, the new generation comes first and matches on every disk,
  // unless it was published by this very object and its promotion then reported failure.
  method Settle(store: Store, g: StagedGeneration, admit: bool, ghost keep: Option<string>, ghost limits: seq<Limit>,
          ghost read: seq<File>)
    returns (outcome: Refreshed)
    requires g.store == store && g.Ready() && !g.promoted
    requires Acceptable(g.Chosen())
    requires keep.Some? ==>
               && GoodCopy(store.sha, store.disk, keep.value, limits, read) && IsGenerationId(keep.value)
               && ((keep.value == g.generationId && g.Held() && !g.removeOnDrop)
                 || (keep.value != g.generationId && g.previous == keep))
    modifies store, g
    ensures store.Valid() && old(store.log) <= store.log
    ensures keep.Some? ==> GoodOn(store.sha, old(store.Now()), store.Now(), keep.value, limits, read)
    ensures !old(g.removeOnDrop) || !admit || outcome.Promoted? ==>
            RightSince(old(g.PlanOf()), old(store.Now()), store.Now())
    ensures outcome.Promoted? ==>
              && outcome.id == g.generationId && Candidates(store.disk) == [outcome.id] + Listed(g.previous)
              && ContentsMatch(store.sha, store.disk, outcome.id, OwnLimits(g.files))
    ensures AllWork(store.world, old(store.clock)) ==> (outcome.Promoted? <==> admit && old(g.Repairable()))
    ensures admit && g.repair.None? && old(g.AlreadySelected()) ==> outcome.Promoted?
    ensures admit && LosesFirst(g, old(g.removeOnDrop), old(g.AlreadySelected()), old(store.clock)) ==>
              store.disk == Disk(old(store.disk.generations) - {g.generationId}, Stored(g.Chosen()))
    ensures !outcome.NotStaged?
    ensures !admit ==> !outcome.Promoted? && store.disk.manifestFile == old(store.disk.manifestFile)
  {
    hide Kept, Promoting, GoodOn, GoodCopy, RightSince, ContentsMatch, ReadMembers, OwnLimits, Holds, Holding, ByName,
      GenerationId, Candidates, Writable, UniqueNames, Acceptable, IsGenerationId, Latest;
    ghost var id, p1, plan := g.generationId, store.Now(), g.PlanOf();
    IdIsAcceptable(id, g.previous);
    NothingSince(plan, p1);
    outcome := Abandoned;
    if admit {
      var promoted := g.Promote();
      if keep.Some? { PromotionKeepsGood(plan, p1, store.Now(), keep.value, limits, read); }
      PromotionIsRight(plan, p1, store.Now());
      outcome := if promoted then Promoted(g.generationId) else PromotionFailed;
    } else if keep.Some? {
      KeptSelf(p1, {});
      KeepsGood(plan.sha, p1, p1, {}, keep.value, limits, read);
    }
    ghost var p3 := store.Now();
    ghost var scope := g.DropScope();
    RightLog(plan, p1, p3);
    g.Drop();
    KeptManifest(p3, store.Now(), scope);
    if id !in scope || p3.disk.manifestFile == p1.disk.manifestFile { StillRight(plan, p1, p3, store.Now(), scope); }
    if outcome.Promoted? { MatchThroughKept(plan.sha, p3, store.Now(), scope, id, OwnLimits(g.files)); }
    if keep.Some? {
      GoodEnds(plan.sha, p1, p3, keep.value, limits, read);
      KeepsGood(plan.sha, p3, store.Now(), scope, keep.value, limits, read);
      GoodOnwards(plan.sha, p1, p3, store.Now(), keep.value, limits, read);
    }
  }

  lemma RightLog(plan: Plan, p: Past, q: Past)
    requires RightSince(plan, p, q)
    ensures p.log <= q.log
  {
  }

  // A world in which a generation that was just published, and is not selected yet, is lost: the
  // replacement of the manifest takes effect and reports failure, and the removal works.
  predicate LosesFirst(g: StagedGeneration, published: bool, selected: bool, clock: nat) {
    && published && !selected && g.repair.None?
    && g.store.world(clock).FailsAfter? && g.store.world(clock + 1).Works?
  }

  // So the condition of `Settle` cannot be dropped: for whatever generation was just published and
  // is not selected yet, there is a world that selects it and removes its directory.
  method LoseFirst(sha: Digest, disk: Disk, stagingName: nat -> string, files: seq<File>, previous: Option<string>)
    returns (store: Store)
    requires Digests(sha) && forall n: nat :: !IsGenerationId(stagingName(n))
    requires UniqueNames(files) && ByName(files) == files
    requires Acceptable(Manifest(SCHEMA_VERSION, GenerationId(sha, files), previous))
    requires ContentsMatch(sha, disk, GenerationId(sha, files), OwnLimits(files))
    requires Candidates(disk) != [GenerationId(sha, files)] + Listed(previous)
    ensures var id := GenerationId(sha, files);
            && Candidates(store.disk) == [id] + Listed(previous) && store.disk.generations == disk.generations - {id}
            && !RightSince(Plan(sha, id, previous, true, OwnLimits(files)), Past(disk, []), store.Now())
  {
    hide UniqueNames, ByName, GenerationId, ReadMembers, OwnLimits;
    var id := GenerationId(sha, files);
    store := new Store(disk, n => if n == 0 then FailsAfter else Works, sha, stagingName);
    var g := new StagedGeneration(store, id, files, previous, true, None);
    MatchIsThere(sha, disk, id, OwnLimits(files));
    SelectedFirst(Disk(disk.generations - {id}, Stored(g.Chosen())), id, previous);
    var outcome := Settle(store, g, true, None, [], []);
  }

  lemma IdIsAcceptable(id: string, previous: Option<string>)
    requires Acceptable(Manifest(SCHEMA_VERSION, id, previous))
    ensures IsGenerationId(id)
  {
  }

  // What the next manifest keeps: it is always acceptable, and keeps the validated copy.
  lemma NextFacts(sha: Digest, d: Disk, files: seq<File>, validated: Option<string>, limits: seq<Limit>,
          read: seq<File>)
    requires Digests(sha)
    requires validated.Some? ==> GoodCopy(sha, d, validated.value, limits, read)
    ensures var id := GenerationId(sha, files); var next := NextPrevious(d, id, validated);
            && IsGenerationId(id) && Acceptable(Manifest(SCHEMA_VERSION, id, next))
            && (validated.Some? ==> IsGenerationId(validated.value) && validated.value in d.generations)
            && (validated.Some? && validated.value != id ==> next == validated)
  {
    ProducedIdsAreIds(sha, files);
  }

  // An identical refresh keeps the older generation; one that finds the first generation broken
  // and brings the second back drops the broken one.
  lemma IdenticalRefreshKeepsOlder(d: Disk, id: string)
    requires id in Candidates(d)
    ensures Candidates(d)[0] == id ==> [id] + Listed(NextPrevious(d, id, Some(id))) == Candidates(d)
    ensures Candidates(d)[0] != id ==> NextPrevious(d, id, Some(id)) == None
  {
    assert d.manifestFile.Stored? && Acceptable(d.manifestFile.manifest);
  }

  // ---- Any number of refreshes -------------------------------------------------------------

  // Start-of-sync cleanup never removes a selected directory.
  lemma SelectedOutsideCleanup(d: Disk, id: string)
    requires id in Candidates(d)
    ensures id !in CleanupScope(d)
  {
  }

  lemma GoodSelected(sha: Digest, d: Disk, id: string, limits: seq<Limit>, read: seq<File>)
    requires GoodCopy(sha, d, id, limits, read)
    ensures id in Candidates(d) && id !in CleanupScope(d)
  {
    SelectedOutsideCleanup(d, id);
  }

  // A disk the store had at some moment from `p` to `q`.
  ghost predicate Met(p: Past, q: Past, d: Disk) {
    p.log <= q.log && (d == p.disk || d in q.log[|p.log|..])
  }

  lemma LatestIsMet(p: Past, q: Past, r: Past, first: Disk)
    requires p.log <= q.log <= r.log && p.disk == Latest(first, p.log) && q.disk == Latest(first, q.log)
    ensures Met(p, r, q.disk)
  {
    if |q.log| > |p.log| {
      assert r.log[|q.log| - 1] == q.disk;
      assert r.log[|p.log|..][|q.log| - 1 - |p.log|] == q.disk;
    }
  }

  lemma StillMet(p: Past, q: Past, r: Past, d: Disk)
    requires Met(p, q, d) && q.log <= r.log
    ensures Met(p, r, d)
  {
    if d != p.disk {
      var i :| 0 <= i < |q.log[|p.log|..]| && q.log[|p.log|..][i] == d;
      assert r.log[|p.log|..][i] == d;
    }
  }

  // The directory of these files' id reads as other files, which is only possible when two file
  // lists that are both at hand have equal digests.
  ghost predicate OthersUnderId(sha: Digest, d: Disk, limits: seq<Limit>, files: seq<File>) {
    var id := GenerationId(sha, files);
    && id in d.generations
    && var read := ReadMembers(d.generations[id], limits);
    && read.Some? && Clash(sha, read.value, files)
  }

  // The rest of a sync after cleaning up, reading the cache and staging: the copy that was read at
  // the start, whose id was handed to the staging, is good on every disk since.
  method SettleKeeping(store: Store, g: StagedGeneration, admit: bool, ghost start: Past, ghost cached: Option<string>,
                       ghost limits: seq<Limit>, ghost read: seq<File>, ghost files: seq<File>)
    returns (outcome: Refreshed, ghost clash: bool)
    requires g.store == store && g.Ready() && !g.promoted
    requires Kept(start, store.Now(), CleanupScope(start.disk))
    requires Bounded(limits) && Addressable(files) && UniqueNames(files)
    requires g.files == ByName(files) && g.generationId == GenerationId(store.sha, files)
    requires g.previous == NextPrevious(store.disk, g.generationId, cached)
    requires cached == Some(g.generationId) ==> !g.removeOnDrop
    requires cached.Some? ==> GoodCopy(store.sha, start.disk, cached.value, limits, read)
    modifies store, g
    ensures store.Valid() && start.log <= store.log
    ensures clash ==> cached.Some? && OthersUnderId(store.sha, start.disk, limits, files)
    ensures cached.Some? && !clash ==> GoodOn(store.sha, start, store.Now(), cached.value, limits, read)
    ensures outcome.Promoted? ==>
              && outcome.id == GenerationId(store.sha, files)
              && Candidates(store.disk) == [outcome.id] + Listed(g.previous)
              && ContentsMatch(store.sha, store.disk, outcome.id, OwnLimits(ByName(files)))
    ensures !admit ==> !outcome.Promoted?
  {
    hide Kept, GoodOn, GoodCopy, Clash, ContentsMatch, ReadMembers, OwnLimits, Holds, Holding, ByName, GenerationId,
      NextPrevious, Candidates, Writable, UniqueNames, AllSafe, Acceptable, CleanupScope, RightSince;
    ghost var sha, now, id, scope := store.sha, store.Now(), g.generationId, CleanupScope(start.disk);
    KeptManifest(start, now, scope);
    if cached.Some? {
      GoodSelected(sha, start.disk, cached.value, limits, read);
      KeepsGood(sha, start, now, scope, cached.value, limits, read);
      GoodEnds(sha, start, now, cached.value, limits, read);
      GoodStaysThere(sha, start.disk, now.disk, cached.value, limits, read);
    }
    clash := cached == Some(id) && Clash(sha, read, files);
    NextFacts(sha, now.disk, files, cached, limits, read);
    if cached == Some(id) && !clash { KeptSelf(now, {}); IsHeld(sha, now, now, id, limits, read, files); }
    if clash { OthersAre(sha, start.disk, limits, read, files); }
    outcome := Settle(store, g, admit, if clash then None else cached, limits, read);
    if cached.Some? && !clash { GoodOnwards(sha, start, now, store.Now(), cached.value, limits, read); }
  }

  lemma GoodStaysThere(sha: Digest, d: Disk, e: Disk, id: string, limits: seq<Limit>, read: seq<File>)
    requires GoodCopy(sha, d, id, limits, read) && GoodCopy(sha, e, id, limits, read)
    ensures IsGenerationId(id) && id in d.generations && id in e.generations
  {
  }

  lemma OthersAre(sha: Digest, d: Disk, limits: seq<Limit>, read: seq<File>, files: seq<File>)
    requires GoodCopy(sha, d, GenerationId(sha, files), limits, read) && Clash(sha, read, files)
    ensures OthersUnderId(sha, d, limits, files)
  {
  }
}
