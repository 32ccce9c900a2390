// The generation-atomic cache store: directories of files selected by one small manifest, changed
// step by step on a disk where any step may fail, take effect and still report failure, or stop
// half way.
module GenerationStore {
  import opened Options
  import opened Ordering
  import opened Framing

  datatype Node = Regular(contents: Bytes) | Obstacle
  type Directory = map<Bytes, Node>

  datatype Manifest = Manifest(version: nat, current: string, previous: Option<string>)
  datatype ManifestFile = Absent | Unreadable | Stored(manifest: Manifest)

  // `generations` holds published generations by id and staging directories by their own names.
  datatype Disk = Disk(generations: map<string, Directory>, manifestFile: ManifestFile)

  datatype Limit = Limit(name: Bytes, readLimit: nat)

  const SCHEMA_VERSION: nat := 2
  const STAGING_TRIES: nat := 32

  // ---- Reading -----------------------------------------------------------------------------

  predicate Acceptable(m: Manifest) {
    && m.version == SCHEMA_VERSION && IsGenerationId(m.current)
    && (m.previous.Some? ==> IsGenerationId(m.previous.value) && m.previous.value != m.current)
  }

  // The selected ids, best first; none when the manifest is absent or cannot be used.
  function Candidates(disk: Disk): seq<string> {
    match disk.manifestFile
    case Stored(m) => if Acceptable(m) then [m.current] + Listed(m.previous) else []
    case _ => []
  }

  // A manifest selects its one or two ids, the current one first, exactly when it has this schema
  // and names well-formed, different ids; any other manifest selects nothing.
  lemma CandidatesExactly(disk: Disk)
    ensures var ids := Candidates(disk);
            && |ids| <= 2 && (forall i :: 0 <= i < |ids| ==> IsGenerationId(ids[i]))
            && (|ids| == 2 ==> ids[0] != ids[1])
            && (ids != [] <==>
                  && disk.manifestFile.Stored? && disk.manifestFile.manifest.version == 2
                  && IsGenerationId(disk.manifestFile.manifest.current)
                  && forall p :: disk.manifestFile.manifest.previous == Some(p) ==>
                       IsGenerationId(p) && p != disk.manifestFile.manifest.current)
            && (ids != [] ==>
                  && ids[0] == disk.manifestFile.manifest.current
                  && (disk.manifestFile.manifest.previous.Some? <==> |ids| == 2)
                  && (|ids| == 2 ==> disk.manifestFile.manifest.previous == Some(ids[1])))
  {
    if disk.manifestFile.Stored? && disk.manifestFile.manifest.previous.Some? {
      assert disk.manifestFile.manifest.previous == Some(disk.manifestFile.manifest.previous.value);
    }
  }

  function Second(ids: seq<string>): Option<string> { if |ids| > 1 then Some(ids[1]) else None }

  function ReadMember(dir: Directory, limit: Limit): Option<Bytes> {
    if limit.name in dir && dir[limit.name].Regular? && |dir[limit.name].contents| <= limit.readLimit
    then Some(dir[limit.name].contents) else None
  }

  function ReadMembers(dir: Directory, limits: seq<Limit>): Option<seq<File>> {
    if limits == [] then Some([])
    else
      match (ReadMember(dir, limits[0]), ReadMembers(dir, limits[1..]))
      case (Some(contents), Some(rest)) => Some([File(limits[0].name, contents)] + rest)
      case _ => None
  }

  predicate ContentsMatch(sha: Digest, disk: Disk, id: string, limits: seq<Limit>) {
    && id in disk.generations
    && var read := ReadMembers(disk.generations[id], limits);
    && read.Some? && GenerationId(sha, read.value) == id
  }

  function OwnLimits(files: seq<File>): seq<Limit> {
    seq(|files|, i requires 0 <= i < |files| => Limit(files[i].name, |files[i].contents|))
  }

  predicate IsSafeFileName(name: Bytes) {
    && name != [] && name[0] != '.' as int
    && forall i :: 0 <= i < |name| ==>
         var c := name[i];
         ('0' as int <= c <= '9' as int) || ('a' as int <= c <= 'z' as int) || ('A' as int <= c <= 'Z' as int)
         || c == '.' as int || c == '_' as int || c == '-' as int
  }

  // A safe name stays inside its directory: no slash, no separator, and not a relative step.
  lemma SafeNamesStay(name: Bytes)
    ensures IsSafeFileName(name) ==> name != [] && 47 !in name && 92 !in name && 0 !in name && name[0] != 46
    ensures name != [] && name[0] != 46
            && (forall c :: c in name ==> 48 <= c <= 57 || 65 <= c <= 90 || 97 <= c <= 122 || c in {45, 46, 95}) ==>
              IsSafeFileName(name)
  {
    if name != [] && (forall c :: c in name ==> 48 <= c <= 57 || 65 <= c <= 90 || 97 <= c <= 122 || c in {45, 46, 95})
    {
      assert forall i :: 0 <= i < |name| ==> name[i] in name;
    }
  }

  predicate AllSafe(files: seq<File>) { forall i :: 0 <= i < |files| ==> IsSafeFileName(files[i].name) }

  // ---- Steps -------------------------------------------------------------------------------

  datatype Op =
    | Look
    | MakeDir(dir: string)
    | WriteNew(dir: string, name: Bytes, contents: Bytes)
    | RenameDir(from: string, to: string)
    | RemoveDir(dir: string)
    | Replace(dir: string, name: Bytes, contents: Bytes)
    | ReplaceManifest(manifest: Manifest)

  // A torn write leaves other bytes, a torn removal leaves some of the members.
  datatype Fault = Works | FailsBefore | FailsAfter | Torn(kept: set<Bytes>, bytes: Bytes)

  function Perform(d: Disk, op: Op): (Disk, bool) {
    var g := d.generations;
    match op
    case Look => (d, true)
    case MakeDir(dir) => if dir in g then (d, false) else (d.(generations := g[dir := map[]]), true)
    case WriteNew(dir, name, contents) =>
      if dir in g && name !in g[dir] then (d.(generations := g[dir := g[dir][name := Regular(contents)]]), true)
      else (d, false)
    case RenameDir(from, to) =>
      if from in g && to !in g then (d.(generations := (g - {from})[to := g[from]]), true) else (d, false)
    case RemoveDir(dir) => if dir in g then (d.(generations := g - {dir}), true) else (d, false)
    case Replace(dir, name, contents) =>
      if dir in g && (name in g[dir] ==> g[dir][name].Regular?)
      then (d.(generations := g[dir := g[dir][name := Regular(contents)]]), true) else (d, false)
    case ReplaceManifest(m) => (d.(manifestFile := Stored(m)), true)
  }

  function Effect(d: Disk, op: Op, fault: Fault): (Disk, bool) {
    match fault
    case Works => Perform(d, op)
    case FailsBefore => (d, false)
    case FailsAfter => (Perform(d, op).0, false)
    case Torn(kept, bytes) =>
      var g := d.generations;
      if op.WriteNew? && op.dir in g && op.name !in g[op.dir]
      then (d.(generations := g[op.dir := g[op.dir][op.name := Regular(bytes)]]), false)
      else if op.RemoveDir? && op.dir in g
      then (d.(generations := g[op.dir := map n | n in g[op.dir] && n in kept :: g[op.dir][n]]), false)
      else (d, false)
  }

  // Directories outside `but` are still there with the same members.
  ghost predicate KeepsDirs(d: Disk, e: Disk, but: set<string>) {
    forall id :: id in d.generations && id !in but ==> id in e.generations && e.generations[id] == d.generations[id]
  }

  datatype Past = Past(disk: Disk, log: seq<Disk>)

  // From `p` to `q` every recorded disk kept the directories outside `but` and the manifest.
  ghost predicate Kept(p: Past, q: Past, but: set<string>) {
    && p.log <= q.log && KeepsDirs(p.disk, q.disk, but) && q.disk.manifestFile == p.disk.manifestFile
    && forall i :: |p.log| <= i < |q.log| ==>
         KeepsDirs(p.disk, q.log[i], but) && q.log[i].manifestFile == p.disk.manifestFile
  }

  lemma KeptOn(p: Past, q: Past, r: Past, first: set<string>, second: set<string>, but: set<string>)
    requires Kept(p, q, first) && Kept(q, r, second) && first <= but
    requires forall id :: id in second && id !in but ==> id !in p.disk.generations
    ensures Kept(p, r, but)
  {
    forall i | |p.log| <= i < |r.log|
      ensures KeepsDirs(p.disk, r.log[i], but) && r.log[i].manifestFile == p.disk.manifestFile
    {
      if i < |q.log| { assert r.log[i] == q.log[i]; }
    }
  }

  lemma KeptManifest(p: Past, q: Past, but: set<string>)
    requires Kept(p, q, but)
    ensures p.disk.manifestFile == q.disk.manifestFile && p.log <= q.log
  {
  }

  lemma KeptWider(p: Past, q: Past, but: set<string>, wider: set<string>)
    requires Kept(p, q, but) && but <= wider
    ensures Kept(p, q, wider)
  {
  }

  function Listed(previous: Option<string>): seq<string> { if previous.Some? then [previous.value] else [] }

  // What every disk during a promotion still has of the disk before it: all other directories
  // until the manifest is replaced, and, before and after, the directory the new manifest keeps as
  // previous and the generation's own directory if it held the files already.
  ghost predicate Safe(d: Disk, e: Disk, id: string, previous: Option<string>, held: bool) {
    && (e.manifestFile == d.manifestFile || e.manifestFile == Stored(Manifest(SCHEMA_VERSION, id, previous)))
    && (e.manifestFile == d.manifestFile ==> KeepsDirs(d, e, {id}))
    && (held && id in d.generations ==> id in e.generations && e.generations[id] == d.generations[id])
    && (previous.Some? && previous.value in d.generations ==>
          previous.value in e.generations && e.generations[previous.value] == d.generations[previous.value])
  }

  // Once the manifest has changed, the generation comes first and its contents match.
  ghost predicate SelectedRight(sha: Digest, d: Disk, was: ManifestFile, id: string, previous: Option<string>,
          limits: seq<Limit>)
  {
    d.manifestFile != was ==> Candidates(d) == [id] + Listed(previous) && ContentsMatch(sha, d, id, limits)
  }

  // What a promotion is about: the generation, what its manifest keeps, and what it held before.
  datatype Plan = Plan(sha: Digest, id: string, previous: Option<string>, held: bool, limits: seq<Limit>)

  ghost predicate Fine(plan: Plan, d: Disk, e: Disk) {
    && Safe(d, e, plan.id, plan.previous, plan.held)
    && SelectedRight(plan.sha, e, d.manifestFile, plan.id, plan.previous, plan.limits)
  }

  // Every disk from `p` to `q` is as a promotion may leave it.
  ghost predicate Promoting(plan: Plan, p: Past, q: Past) {
    && p.log <= q.log && Fine(plan, p.disk, q.disk)
    && forall i :: |p.log| <= i < |q.log| ==> Fine(plan, p.disk, q.log[i])
  }

  lemma RepairIsSafe(plan: Plan, p: Past, q: Past)
    requires plan.previous != Some(plan.id)
    requires Kept(p, q, {plan.id}) && (plan.held ==> Kept(p, q, {}))
    ensures Promoting(plan, p, q)
  {
    hide ContentsMatch, Candidates;
  }

  lemma ReplacementIsSafe(plan: Plan, p: Past, q: Past, r: Past)
    requires Promoting(plan, p, q) && q.disk.manifestFile == p.disk.manifestFile
    requires r.log == q.log + [r.disk] && r.disk.generations == q.disk.generations
    requires Acceptable(Manifest(SCHEMA_VERSION, plan.id, plan.previous))
             && ContentsMatch(plan.sha, q.disk, plan.id, plan.limits)
    requires r.disk.manifestFile == q.disk.manifestFile
             || r.disk.manifestFile == Stored(Manifest(SCHEMA_VERSION, plan.id, plan.previous))
    ensures Promoting(plan, p, r)
  {
    hide ReadMembers, GenerationId, Acceptable;
    SelectedFirst(r.disk, plan.id, plan.previous);
    forall i | |p.log| <= i < |q.log| ensures r.log[i] == q.log[i] {}
  }

  lemma SelectedFirst(d: Disk, id: string, previous: Option<string>)
    requires Acceptable(Manifest(SCHEMA_VERSION, id, previous))
    ensures d.manifestFile == Stored(Manifest(SCHEMA_VERSION, id, previous)) ==>
            Candidates(d) == [id] + Listed(previous)
  {
  }

  lemma PruneIsSafe(plan: Plan, p: Past, q: Past, r: Past)
    requires Promoting(plan, p, q) && ContentsMatch(plan.sha, q.disk, plan.id, plan.limits)
    requires Acceptable(Manifest(SCHEMA_VERSION, plan.id, plan.previous))
    requires q.disk.manifestFile == Stored(Manifest(SCHEMA_VERSION, plan.id, plan.previous)) != p.disk.manifestFile
    requires Kept(q, r, Unselected(q.disk, plan.id, plan.previous))
    ensures Promoting(plan, p, r) && ContentsMatch(plan.sha, r.disk, plan.id, plan.limits)
  {
    hide ReadMembers, GenerationId, Acceptable, Candidates;
    forall i | |p.log| <= i < |r.log| ensures Fine(plan, p.disk, r.log[i]) {
      SelectedFirst(r.log[i], plan.id, plan.previous);
      if i < |q.log| { assert r.log[i] == q.log[i]; }
    }
    SelectedFirst(r.disk, plan.id, plan.previous);
  }

  lemma KeptDirectory(p: Past, q: Past, but: set<string>, id: string)
    requires Kept(p, q, but) && id in p.disk.generations && id !in but
    ensures id in q.disk.generations && q.disk.generations[id] == p.disk.generations[id]
  {
  }

  lemma MatchKept(sha: Digest, p: Past, q: Past, but: set<string>, id: string, limits: seq<Limit>)
    requires Kept(p, q, but) && ContentsMatch(sha, p.disk, id, limits) && id !in but
    ensures ContentsMatch(sha, q.disk, id, limits) && id in q.disk.generations
  {
  }

  lemma MatchIsThere(sha: Digest, d: Disk, id: string, limits: seq<Limit>)
    ensures ContentsMatch(sha, d, id, limits) ==> id in d.generations
  {
  }

  lemma KeptSelected(p: Past, q: Past, id: string, previous: Option<string>)
    requires Kept(p, q, Unselected(p.disk, id, previous)) && id in p.disk.generations
    ensures id in q.disk.generations && q.disk.generations[id] == p.disk.generations[id]
  {
  }

  lemma SameManifestSelects(d: Disk, e: Disk)
    requires d.manifestFile == e.manifestFile
    ensures Candidates(d) == Candidates(e)
  {
  }

  // The comparison made before writing is that of the two selections.
  lemma SelectionRead(d: Disk, id: string, previous: Option<string>)
    ensures var s := Candidates(d); (s != [] && s[0] == id && Second(s) == previous) <==> s == [id] + Listed(previous)
  {
  }

  // A step that leaves the directory's members as they were keeps that directory too.
  lemma KeptSame(p: Past, q: Past, r: Past, id: string)
    requires Kept(p, q, {}) && Kept(q, r, {id}) && r.log == q.log + [r.disk]
    requires id in p.disk.generations && id in r.disk.generations && r.disk.generations[id] == p.disk.generations[id]
    ensures Kept(p, r, {})
  {
    forall i | |p.log| <= i < |r.log|
      ensures KeepsDirs(p.disk, r.log[i], {}) && r.log[i].manifestFile == p.disk.manifestFile
    {
      if i < |q.log| { assert r.log[i] == q.log[i]; }
    }
  }

  lemma KeptSelf(p: Past, but: set<string>)
    ensures Kept(p, p, but)
  {
  }

  function Touches(op: Op): set<string> {
    match op
    case WriteNew(dir, _, _) => {dir}
    case RenameDir(from, _) => {from}
    case RemoveDir(dir) => {dir}
    case Replace(dir, _, _) => {dir}
    case _ => {}
  }

  lemma EffectKeeps(d: Disk, op: Op, fault: Fault)
    ensures KeepsDirs(d, Effect(d, op, fault).0, Touches(op))
    ensures !op.ReplaceManifest? ==> Effect(d, op, fault).0.manifestFile == d.manifestFile
    ensures op.ReplaceManifest? ==> Effect(d, op, fault).0.generations == d.generations
  {
  }

  function Holding(files: seq<File>): Directory
    requires UniqueNames(files)
  {
    map i | 0 <= i < |files| :: files[i].name := Regular(files[i].contents)
  }

  lemma HoldingSnoc(files: seq<File>, k: nat)
    requires UniqueNames(files) && k < |files|
    ensures files[k].name !in Holding(files[..k])
    ensures Holding(files[..k + 1]) == Holding(files[..k])[files[k].name := Regular(files[k].contents)]
  {
    var before, after := files[..k], files[..k + 1];
    forall i | 0 <= i <= k ensures after[i] == files[i] && after[i].name in Holding(after) {}
    assert forall i :: 0 <= i < k ==> before[i] == files[i];
  }

  lemma OrderedUnique(files: seq<File>)
    requires UniqueNames(files)
    ensures UniqueNames(ByName(files)) && ByName(ByName(files)) == ByName(files)
    ensures forall f :: f in ByName(files) <==> f in files
  {
    FileOrder();
    SortUniqueFacts(files, FileLess);
    var o := ByName(files);
    SortedIsSortUnique(o, FileLess);
    forall i, j | 0 <= i < j < |o| ensures o[i].name != o[j].name {
      assert o[i] in files && o[j] in files;
      var a :| 0 <= a < |files| && files[a] == o[i];
      var b :| 0 <= b < |files| && files[b] == o[j];
      assert FileLess(o[i], o[j]) && !FileLess(o[i], o[i]);
    }
  }

  // The directory holds these files, whatever else is in it.
  ghost predicate Holds(dir: Directory, files: seq<File>) {
    forall i :: 0 <= i < |files| ==> files[i].name in dir && dir[files[i].name] == Regular(files[i].contents)
  }

  // Every member's place is free or taken by a regular file.
  ghost predicate Writable(dir: Directory, files: seq<File>) {
    forall i :: 0 <= i < |files| ==> files[i].name in dir ==> dir[files[i].name].Regular?
  }

  // The first `k` members are right and the others as they were.
  ghost predicate Repaired(was: Directory, dir: Directory, files: seq<File>, k: nat)
    requires k <= |files|
  {
    && (forall i :: 0 <= i < k ==> files[i].name in dir && dir[files[i].name] == Regular(files[i].contents))
    && (forall i :: k <= i < |files| ==>
          (files[i].name in dir <==> files[i].name in was)
          && (files[i].name in was ==> dir[files[i].name] == was[files[i].name]))
  }

  predicate Right(dir: Directory, file: File) { file.name in dir && dir[file.name] == Regular(file.contents) }

  lemma NothingRepaired(dir: Directory, files: seq<File>)
    ensures Repaired(dir, dir, files, 0)
  {
  }

  lemma AllRepaired(was: Directory, dir: Directory, files: seq<File>)
    requires Repaired(was, dir, files, |files|)
    ensures Holds(dir, files)
  {
  }

  lemma HoldingHolds(files: seq<File>)
    requires UniqueNames(files)
    ensures Holds(Holding(files), files)
  {
  }

  lemma HoldingReads(files: seq<File>, k: nat)
    requires UniqueNames(files) && k < |files|
    ensures ReadMember(Holding(files), Limit(files[k].name, |files[k].contents|)) == Some(files[k].contents)
  {
    assert files[k].name in Holding(files);
  }

  lemma NothingHeld(files: seq<File>)
    ensures Holding(files[..0]) == map[]
  {
  }

  // A directory that holds exactly these files reads back as them.
  lemma {:induction false} HeldRead(dir: Directory, files: seq<File>)
    requires Holds(dir, files)
    ensures ReadMembers(dir, OwnLimits(files)) == Some(files)
  {
    if files == [] {
    } else {
      HeldRead(dir, files[1..]);
      assert OwnLimits(files)[1..] == OwnLimits(files[1..]);
      assert files == [files[0]] + files[1..];
    }
  }

  lemma HeldMatch(sha: Digest, disk: Disk, id: string, files: seq<File>)
    requires id in disk.generations && Holds(disk.generations[id], files)
    requires id == GenerationId(sha, files)
    ensures ContentsMatch(sha, disk, id, OwnLimits(files))
  {
    HeldRead(disk.generations[id], files);
  }

  // The generation the new manifest keeps besides the new one: what the caller validated, or, if
  // that is the new one itself, what was selected second before.
  function NextPrevious(disk: Disk, generationId: string, previous: Option<string>): Option<string> {
    var wanted := if previous == Some(generationId) then Second(Candidates(disk)) else previous;
    if wanted.Some? && IsGenerationId(wanted.value) && wanted.value != generationId then wanted else None
  }

  lemma NextIsAcceptable(d: Disk, e: Disk, id: string, previous: Option<string>)
    requires d.manifestFile == e.manifestFile && IsGenerationId(id)
    ensures var next := NextPrevious(d, id, previous);
            next == NextPrevious(e, id, previous) && Acceptable(Manifest(SCHEMA_VERSION, id, next))
  {
  }

  function Unselected(d: Disk, current: string, previous: Option<string>): set<string> {
    set id | id in d.generations && id != current && Some(id) != previous
  }

  function CleanupScope(d: Disk): set<string> {
    var ids := Candidates(d);
    if ids != [] then Unselected(d, ids[0], Second(ids))
    else if d.manifestFile.Absent? then d.generations.Keys
    else {}
  }

  function Latest(first: Disk, log: seq<Disk>): Disk { if log == [] then first else log[|log| - 1] }

  ghost predicate AllWork(world: nat -> Fault, from: nat) { forall n: nat :: n >= from ==> world(n).Works? }

  class Store {
    var disk: Disk
    var clock: nat
    var counter: nat
    ghost var log: seq<Disk>
    ghost const first: Disk
    const world: nat -> Fault
    const sha: Digest
    const stagingName: nat -> string

    constructor (disk: Disk, world: nat -> Fault, sha: Digest, stagingName: nat -> string)
      ensures this.disk == disk && this.world == world && this.sha == sha && this.stagingName == stagingName
      ensures log == [] && clock == 0 && first == disk
    {
      this.disk, this.world, this.sha, this.stagingName := disk, world, sha, stagingName;
      clock, counter, log, first := 0, 0, [], disk;
    }

    // Ids come from a 32-byte digest, staging names are never ids, and the log ends with the disk.
    ghost predicate Valid() reads this {
      && Digests(sha) && (forall n: nat :: !IsGenerationId(stagingName(n)))
      && disk == Latest(first, log)
    }

    ghost function Now(): Past reads this { Past(disk, log) }

    // One of the next staging names is free.
    ghost predicate NameFree(counter: nat, d: Disk) {
      exists j :: counter <= j < counter + 32 && stagingName(j) !in d.generations
    }

    method Do(op: Op) returns (ok: bool)
      modifies this`disk, this`clock, this`log
      ensures (disk, ok) == Effect(old(disk), op, world(old(clock)))
      ensures log == old(log) + [disk] && clock == old(clock) + 1
      ensures !op.ReplaceManifest? ==> Kept(old(Now()), Now(), Touches(op))
    {
      EffectKeeps(disk, op, world(clock));
      var (d, done) := Effect(disk, op, world(clock));
      disk, clock, ok, log := d, clock + 1, done, log + [d];
    }

    // A fresh, empty staging directory, or none after 32 names were taken.
    method CreateStagingDirectory() returns (r: Option<string>)
      requires Valid()
      modifies this
      ensures Valid() && Kept(old(Now()), Now(), {})
      ensures r.Some? ==> !IsGenerationId(r.value) && r.value !in old(disk.generations)
      ensures r.Some? ==> disk.generations == old(disk.generations)[r.value := map[]]
      ensures forall id :: id in disk.generations && IsGenerationId(id) ==> id in old(disk.generations)
      ensures clock >= old(clock)
      ensures AllWork(world, old(clock)) && NameFree(old(counter), old(disk)) ==> r.Some?
    {
      KeptSelf(Now(), {});
      for k := 0 to STAGING_TRIES
        invariant Valid() && disk == old(disk) && Kept(old(Now()), Now(), {}) && clock >= old(clock)
                  && counter == old(counter) + k
        invariant AllWork(world, old(clock)) ==>
                    forall j :: old(counter) <= j < counter ==> stagingName(j) in old(disk.generations)
      {
        var name := stagingName(counter);
        counter := counter + 1;
        var taken := name in disk.generations;
        var ok := Do(MakeDir(name));
        if ok { return Some(name); }
        if !taken { return None; }
      }
      return None;
    }

    // A match needs the reads to work; a failed read counts as a mismatch.
    method GenerationContentsMatch(id: string, limits: seq<Limit>) returns (matches: bool)
      requires Valid()
      modifies this
      ensures Valid() && log == old(log) + [disk] && disk == old(disk) && Kept(old(Now()), Now(), {})
      ensures matches ==> ContentsMatch(sha, disk, id, limits)
      ensures clock == old(clock) + 1
      ensures AllWork(world, old(clock)) ==> (matches <==> ContentsMatch(sha, disk, id, limits))
    {
      var readable := Do(Look);
      matches := readable && ContentsMatch(sha, disk, id, limits);
    }

    method WriteMember(staging: string, files: seq<File>, k: nat) returns (ok: bool)
      requires Valid() && UniqueNames(files) && k < |files|
      requires staging in disk.generations && disk.generations[staging] == Holding(files[..k])
      modifies this
      ensures Valid() && Kept(old(Now()), Now(), {staging})
      ensures disk.generations.Keys == old(disk.generations.Keys)
      ensures ok ==> disk.generations == old(disk.generations)[staging := Holding(files[..k + 1])]
      ensures clock == old(clock) + 1 && (AllWork(world, old(clock)) ==> ok)
    {
      hide Holding;
      HoldingSnoc(files, k);
      ok := Do(WriteNew(staging, files[k].name, files[k].contents));
    }

    // Writes the files, one after the other, into a fresh staging directory.
    method WriteStaged(staging: string, files: seq<File>) returns (ok: bool)
      requires Valid() && !IsGenerationId(staging) && UniqueNames(files)
      requires staging in disk.generations && disk.generations[staging] == map[]
      modifies this
      ensures Valid() && Kept(old(Now()), Now(), {staging})
      ensures disk.generations.Keys == old(disk.generations.Keys)
      ensures ok ==> disk.generations == old(disk.generations)[staging := Holding(files)]
      ensures clock >= old(clock) && (AllWork(world, old(clock)) ==> ok)
    {
      hide Kept, Holding;
      ghost var start := Now();
      KeptSelf(start, {staging});
      NothingHeld(files);
      var k := 0;
      while k < |files|
        invariant Valid() && 0 <= k <= |files| && clock >= old(clock)
        invariant Kept(old(Now()), Now(), {staging})
        invariant disk.generations == old(disk.generations)[staging := Holding(files[..k])]
        invariant disk.generations.Keys == old(disk.generations.Keys)
      {
        ghost var before := Now();
        var written := WriteMember(staging, files, k);
        KeptOn(start, before, Now(), {staging}, {staging}, {staging});
        if !written { return false; }
        k := k + 1;
      }
      assert files[..|files|] == files;
      ghost var all := Now();
      var synced := Do(Look);
      KeptOn(start, all, Now(), {staging}, {}, {staging});
      return synced;
    }

    // Stages a generation: a fresh directory is published under its id by one rename; an existing
    // one is accepted if it matches, and otherwise kept for repair at promotion.
    method StageGeneration(files: seq<File>, previous: Option<string>) returns (r: StageResult)
      requires Valid()
      modifies this
      ensures Valid() && Kept(old(Now()), Now(), {})
      ensures r.Rejected? <==> !(files != [] && UniqueNames(files) && AllSafe(files))
      ensures r.Rejected? ==> disk == old(disk)
      ensures clock >= old(clock)
      ensures AllWork(world, old(clock)) && NameFree(old(counter), old(disk)) ==> !r.Failed?
      ensures r.Staged? ==> fresh(r.generation) && r.generation.store == this && r.generation.Ready()
      ensures r.Staged? ==>
                var g := r.generation;
                && !g.promoted && g.files == ByName(files) && g.generationId == GenerationId(sha, files)
                && g.previous == NextPrevious(old(disk), g.generationId, previous)
                && (g.removeOnDrop <==> g.generationId !in old(disk.generations))
                && (g.repair.Some? ==>
                  g.repair.value !in old(disk.generations) && g.generationId in old(disk.generations))
    {
      var orderedFiles := ByName(files);
      if files == [] || !UniqueNames(files) || !AllSafe(files) {
        return Rejected;
      }
      hide Kept, GenerationId, Holding, Holds, ContentsMatch, ReadMembers, OwnLimits, NextPrevious, ByName, UniqueNames,
        AllSafe, Touches, Effect, IsGenerationId;
      OrderedUnique(files);
      ProducedIdsAreIds(sha, files);
      var generationId := GenerationId(sha, files);
      ghost var p0 := Now();
      var root := Do(Look);
      if !root { return Failed; }
      ghost var p1 := Now();
      var created := CreateStagingDirectory();
      ghost var p2 := Now();
      KeptOn(p0, p1, p2, {}, {}, {});
      if created.None? { return Failed; }
      KeptManifest(p0, p2, {});
      NextIsAcceptable(p0.disk, p2.disk, generationId, previous);
      r := StageInto(created.value, orderedFiles, generationId, previous);
      KeptOn(p0, p2, Now(), {}, {created.value}, {});
    }

    // Writes and publishes; whenever that fails, the staging directory is removed if possible.
    method StageInto(staging: string, files: seq<File>, generationId: string, previous: Option<string>)
      returns (r: StageResult)
      requires Valid() && IsGenerationId(generationId) && !IsGenerationId(staging) && UniqueNames(files)
      requires generationId == GenerationId(sha, files) && ByName(files) == files
      requires staging in disk.generations && disk.generations[staging] == map[]
      modifies this
      ensures Valid() && Kept(old(Now()), Now(), {staging})
      ensures !r.Rejected? && clock >= old(clock) && (AllWork(world, old(clock)) ==> r.Staged?)
      ensures r.Staged? ==> fresh(r.generation) && r.generation.store == this && r.generation.Ready()
      ensures r.Staged? ==>
                var g := r.generation;
                && !g.promoted && g.files == files && g.generationId == generationId
                && g.previous == NextPrevious(old(disk), generationId, previous)
                && (g.removeOnDrop <==> generationId !in old(disk.generations))
                && (g.repair.Some? ==> g.repair.value == staging && generationId in old(disk.generations))
    {
      hide Kept, Holding, ByName, GenerationId;
      ghost var p2 := Now();
      var written := WriteStaged(staging, files);
      ghost var p3 := Now();
      if !written {
        var removed := Do(RemoveDir(staging));
        KeptOn(p2, p3, Now(), {staging}, {staging}, {staging});
        return Failed;
      }
      KeptManifest(p2, p3, {staging});
      r := Publish(files, generationId, staging, previous);
      ghost var p4 := Now();
      KeptOn(p2, p3, p4, {staging}, {staging}, {staging});
      if r.Failed? {
        var removed := Do(RemoveDir(staging));
        KeptOn(p2, p4, Now(), {staging}, {staging}, {staging});
      }
    }

    // A directory of that id is there: it is accepted if it matches, and kept for repair if not.
    method AcceptExisting(files: seq<File>, generationId: string, staging: string)
      returns (ok: bool, repair: Option<string>)
      requires Valid() && generationId in disk.generations && staging in disk.generations && generationId != staging
      modifies this
      ensures Valid() && Kept(old(Now()), Now(), {staging}) && generationId in disk.generations
      ensures clock >= old(clock) && (AllWork(world, old(clock)) ==> ok)
      ensures ok && repair.None? ==> ContentsMatch(sha, disk, generationId, OwnLimits(files))
      ensures ok && repair.Some? ==> repair == Some(staging) && disk == old(disk)
    {
      hide Kept, ReadMembers, OwnLimits, GenerationId;
      ghost var p0 := Now();
      var matches := GenerationContentsMatch(generationId, OwnLimits(files));
      KeptWider(p0, Now(), {}, {staging});
      if !matches { return true, Some(staging); }
      ghost var p1 := Now();
      ok := Do(RemoveDir(staging));
      KeptOn(p0, p1, Now(), {staging}, {staging}, {staging});
      MatchKept(sha, p1, Now(), {staging}, generationId, OwnLimits(files));
      return ok, None;
    }

    // One rename publishes a fresh generation.
    method PublishFresh(files: seq<File>, generationId: string, staging: string) returns (ok: bool)
      requires Valid() && UniqueNames(files) && generationId == GenerationId(sha, files)
               && generationId !in disk.generations
      requires staging in disk.generations && disk.generations[staging] == Holding(files)
      modifies this
      ensures Valid() && Kept(old(Now()), Now(), {staging})
      ensures clock >= old(clock) && (AllWork(world, old(clock)) ==> ok)
      ensures ok ==> ContentsMatch(sha, disk, generationId, OwnLimits(files))
    {
      hide Kept, Holding, Holds, GenerationId, ReadMembers, OwnLimits;
      ghost var p0 := Now();
      ok := Do(RenameDir(staging, generationId));
      if !ok { return; }
      ghost var p1 := Now();
      HoldingHolds(files);
      HeldMatch(sha, disk, generationId, files);
      ok := Do(Look);
      KeptOn(p0, p1, Now(), {staging}, {}, {staging});
    }

    method Publish(files: seq<File>, generationId: string, staging: string, previous: Option<string>)
      returns (r: StageResult)
      requires Valid() && IsGenerationId(generationId) && !IsGenerationId(staging) && UniqueNames(files)
      requires generationId == GenerationId(sha, files) && ByName(files) == files
      requires staging in disk.generations && disk.generations[staging] == Holding(files)
      modifies this
      ensures Valid() && Kept(old(Now()), Now(), {staging})
      ensures !r.Rejected? && clock >= old(clock) && (AllWork(world, old(clock)) ==> r.Staged?)
      ensures r.Staged? ==> fresh(r.generation) && r.generation.store == this && r.generation.Ready()
      ensures r.Staged? ==>
                var g := r.generation;
                && !g.promoted && g.files == files && g.generationId == generationId
                && g.previous == NextPrevious(old(disk), generationId, previous)
                && (g.removeOnDrop <==> generationId !in old(disk.generations))
                && (g.repair.Some? ==> g.repair.value == staging && generationId in old(disk.generations))
    {
      hide Kept, Holding, Holds, ByName, GenerationId, ReadMembers, OwnLimits, NextPrevious, ContentsMatch;
      ghost var p0 := Now();
      var looked := Do(Look);
      ghost var p1 := Now();
      KeptWider(p0, p1, {}, {staging});
      if !looked { return Failed; }
      var repair := None;
      var present := generationId in disk.generations;
      var ok;
      if present {
        ok, repair := AcceptExisting(files, generationId, staging);
      } else {
        ok := PublishFresh(files, generationId, staging);
        MatchIsThere(sha, disk, generationId, OwnLimits(files));
      }
      KeptOn(p0, p1, Now(), {staging}, {staging}, {staging});
      if !ok { return Failed; }
      var next := NextPrevious(disk, generationId, previous);
      KeptManifest(p0, Now(), {staging});
      NextIsAcceptable(p0.disk, disk, generationId, previous);
      var g := new StagedGeneration(this, generationId, files, next, !present, repair);
      return Staged(g);
    }

    // Removes directories one by one. Failures are ignored, and a removal may stop half way.
    method RemoveDirectories(names: set<string>)
      requires Valid()
      modifies this
      ensures Valid() && clock >= old(clock) && Kept(old(Now()), Now(), names)
      ensures disk.generations.Keys <= old(disk.generations.Keys) && counter == old(counter)
      ensures AllWork(world, old(clock)) ==> disk.generations.Keys == old(disk.generations.Keys) - names
    {
      hide Kept;
      ghost var p0 := Now();
      KeptSelf(p0, names);
      var left := names;
      while left != {}
        invariant Valid() && clock >= old(clock) && Kept(p0, Now(), names)
        invariant left <= names && disk.generations.Keys <= p0.disk.generations.Keys && counter == old(counter)
        invariant AllWork(world, old(clock)) ==> disk.generations.Keys == p0.disk.generations.Keys - (names - left)
        decreases left
      {
        var name :| name in left;
        left := left - {name};
        ghost var before := Now();
        var removed := Do(RemoveDir(name));
        KeptOn(p0, before, Now(), names, {name}, names);
      }
    }

    // Removes what the manifest does not select.
    method PruneGenerations(current: string, previous: Option<string>)
      requires Valid()
      modifies this
      ensures Valid() && clock >= old(clock) && Kept(old(Now()), Now(), Unselected(old(disk), current, previous))
      ensures disk.generations.Keys <= old(disk.generations.Keys) && counter == old(counter)
      ensures AllWork(world, old(clock)) ==>
                disk.generations.Keys == old(disk.generations.Keys) - Unselected(old(disk), current, previous)
    {
      ghost var p0 := Now();
      var listed := Do(Look);
      if !listed { return; }
      ghost var p1 := Now();
      var unselected := Unselected(disk, current, previous);
      RemoveDirectories(unselected);
      ghost var p2 := Now();
      KeptOn(p0, p1, p2, {}, unselected, unselected);
      var synced := Do(Look);
      KeptOn(p0, p2, Now(), unselected, {}, unselected);
    }

    // Start-of-sync cleanup: nothing is removed when a manifest is there but cannot be used.
    method CleanupUnselectedGenerations()
      requires Valid()
      modifies this
      ensures Valid() && clock >= old(clock) && Kept(old(Now()), Now(), CleanupScope(old(disk)))
      ensures disk.generations.Keys <= old(disk.generations.Keys) && counter == old(counter)
      ensures AllWork(world, old(clock)) ==>
              disk.generations.Keys == old(disk.generations.Keys) - CleanupScope(old(disk))
    {
      var candidates := Candidates(disk);
      if candidates != [] {
        PruneGenerations(candidates[0], Second(candidates));
        return;
      }
      ghost var p0 := Now();
      var inspected := Do(Look);
      if !disk.manifestFile.Absent? || !inspected { return; }
      ghost var p1 := Now();
      RemoveDirectories(disk.generations.Keys);
      KeptOn(p0, p1, Now(), {}, CleanupScope(p0.disk), CleanupScope(p0.disk));
    }

    // Rewrites one member unless it is right already.
    method RepairMember(generationId: string, staging: string, files: seq<File>, k: nat, ghost was: Directory)
      returns (ok: bool)
      requires Valid() && UniqueNames(files) && generationId in disk.generations && k < |files|
      requires staging in disk.generations && staging != generationId && disk.generations[staging] == Holding(files)
      requires Repaired(was, disk.generations[generationId], files, k)
      modifies this
      ensures Valid() && Kept(old(Now()), Now(), {generationId}) && generationId in disk.generations
              && clock >= old(clock)
      ensures Right(old(disk.generations[generationId]), files[k]) ==>
                Kept(old(Now()), Now(), {}) && disk.generations[generationId] == old(disk.generations[generationId])
      ensures ok ==> Repaired(was, disk.generations[generationId], files, k + 1)
      ensures AllWork(world, old(clock)) ==> (ok <==> (files[k].name in was ==> was[files[k].name].Regular?))
    {
      hide Kept, Holding, IsGenerationId;
      ghost var p0 := Now();
      ghost var dir := disk.generations[generationId];
      HoldingReads(files, k);
      var contents := ReadMember(disk.generations[staging], Limit(files[k].name, |files[k].contents|));
      var target := ReadMember(disk.generations[generationId], Limit(files[k].name, |files[k].contents|));
      var readable := Do(Look);
      ghost var p1 := Now();
      KeptWider(p0, p1, {}, {generationId});
      if readable && target == contents { return true; }
      ok := Do(Replace(generationId, files[k].name, contents.value));
      KeptOn(p0, p1, Now(), {generationId}, {generationId}, {generationId});
      if Right(dir, files[k]) { KeptSame(p0, p1, Now(), generationId); }
    }

    // Rewrites the members of a generation that differ from the staged ones.
    method RepairMembers(generationId: string, staging: string, files: seq<File>) returns (ok: bool)
      requires Valid() && UniqueNames(files) && generationId in disk.generations
      requires staging in disk.generations && staging != generationId && disk.generations[staging] == Holding(files)
      modifies this
      ensures Valid() && Kept(old(Now()), Now(), {generationId}) && generationId in disk.generations
      ensures Holds(old(disk.generations[generationId]), files) ==> Kept(old(Now()), Now(), {})
      ensures ok ==> Holds(disk.generations[generationId], files)
      ensures clock >= old(clock)
      ensures AllWork(world, old(clock)) ==> (ok <==> Writable(old(disk.generations[generationId]), files))
    {
      hide Kept, Holding, Repaired;
      ghost var p0 := Now();
      ghost var was := disk.generations[generationId];
      KeptSelf(p0, {generationId});
      KeptSelf(p0, {});
      NothingRepaired(was, files);
      var k := 0;
      while k < |files|
        invariant Valid() && 0 <= k <= |files| && generationId in disk.generations && clock >= old(clock)
        invariant staging in disk.generations && disk.generations[staging] == Holding(files)
        invariant Kept(p0, Now(), {generationId})
        invariant Repaired(was, disk.generations[generationId], files, k)
        invariant AllWork(world, old(clock)) ==> Writable(was, files[..k])
        invariant Holds(was, files) ==> Kept(p0, Now(), {}) && disk.generations[generationId] == was
      {
        ghost var p1 := Now();
        ok := RepairMember(generationId, staging, files, k, was);
        KeptDirectory(p1, Now(), {generationId}, staging);
        KeptOn(p0, p1, Now(), {generationId}, {generationId}, {generationId});
        if Holds(was, files) { KeptOn(p0, p1, Now(), {}, {}, {}); }
        if !ok { return; }
        k := k + 1;
      }
      AllRepaired(was, disk.generations[generationId], files);
      return true;
    }
  }

  datatype StageResult = Rejected | Failed | Staged(generation: StagedGeneration)

  // Fresh generation or deferred repair, admitted before its promotion.
  class StagedGeneration {
    const store: Store
    const generationId: string
    const files: seq<File>
    const previous: Option<string>
    const repair: Option<string>
    var removeOnDrop: bool
    var promoted: bool

    constructor (store: Store, generationId: string, files: seq<File>, previous: Option<string>, removeOnDrop: bool,
            repair: Option<string>)
      ensures this.store == store && this.generationId == generationId && this.files == files
      ensures this.previous == previous && this.removeOnDrop == removeOnDrop && this.repair == repair && !promoted
    {
      this.store, this.generationId, this.files, this.previous := store, generationId, files, previous;
      this.removeOnDrop, this.repair, promoted := removeOnDrop, repair, false;
    }

    // The generation's directory is there and matches, or its staging directory holds the files.
    ghost predicate Ready() reads this, store {
      && store.Valid() && UniqueNames(files) && ByName(files) == files
      && generationId == GenerationId(store.sha, files)
      && (previous.Some? ==> IsGenerationId(previous.value) && previous.value != generationId)
      && generationId in store.disk.generations
      && match repair
         case None => ContentsMatch(store.sha, store.disk, generationId, OwnLimits(files))
         case Some(staging) =>
           !IsGenerationId(staging) && staging in store.disk.generations
             && store.disk.generations[staging] == Holding(files)
    }

    // A deferred repair finds no obstacle at its members' places.
    ghost predicate Repairable() reads this, store {
      repair.Some? && generationId in store.disk.generations ==> Writable(store.disk.generations[generationId], files)
    }

    // Whether the generation's directory already held the files when it was staged.
    ghost predicate Held() reads this, store {
      generationId in store.disk.generations && (repair.None? || Holds(store.disk.generations[generationId], files))
    }

    ghost function PlanOf(): Plan
      reads this, store
    {
      Plan(store.sha, generationId, previous, Held(), OwnLimits(files))
    }

    predicate AlreadySelected() reads store {
      Candidates(store.disk) == [generationId] + Listed(previous)
    }

    // Repairs if that was deferred, then selects the generation by replacing the manifest in one
    // step, and only then prunes. On every disk in between, the directories the old manifest names
    // are there until it changes; from then on the generation comes first and matches.
    method Promote() returns (ok: bool)
      requires Ready() && !promoted
      modifies this, store
      ensures store.Valid() && Promoting(old(PlanOf()), old(store.Now()), store.Now())
      ensures ok <==> promoted
      ensures promoted ==> !removeOnDrop && Candidates(store.disk) == [generationId] + Listed(previous)
      ensures promoted ==> ContentsMatch(store.sha, store.disk, generationId, OwnLimits(files))
      ensures !promoted ==> removeOnDrop == old(removeOnDrop)
      ensures AllWork(store.world, old(store.clock)) ==> (ok <==> old(Repairable()))
      ensures old(Held()) && promoted ==>
              store.disk.generations[generationId] == old(store.disk.generations[generationId])
      ensures repair.None? && old(AlreadySelected()) ==> ok
      ensures repair.None? && !old(AlreadySelected()) && !store.world(old(store.clock)).Works? ==>
                !ok && store.clock == old(store.clock) + 1
                && store.disk == Effect(old(store.disk), ReplaceManifest(Chosen()), store.world(old(store.clock))).0
    {
      hide Kept, Holding, Holds, Promoting, ReadMembers, OwnLimits, GenerationId, ByName, UniqueNames, Writable,
        Candidates, Effect;
      ghost var p0, plan := store.Now(), PlanOf();
      ok := Repair();
      ghost var p1 := store.Now();
      RepairIsSafe(plan, p0, p1);
      KeptManifest(p0, p1, {generationId});
      SameManifestSelects(p0.disk, p1.disk);
      if plan.held { KeptDirectory(p0, p1, {}, generationId); }
      if !ok { return; }
      var wrote := SelectFirst(plan, p0);
      ok := promoted;
      if !wrote { return; }
      Prune(plan, p0);
    }

    function Chosen(): Manifest { Manifest(SCHEMA_VERSION, generationId, previous) }

    // Replaces the manifest, unless it selects the same already.
    method SelectFirst(ghost plan: Plan, ghost start: Past) returns (wrote: bool)
      requires store.Valid() && !promoted
               && plan == Plan(store.sha, generationId, previous, plan.held, OwnLimits(files))
      requires Promoting(plan, start, store.Now()) && store.disk.manifestFile == start.disk.manifestFile
      requires ContentsMatch(store.sha, store.disk, generationId, OwnLimits(files)) && Acceptable(Chosen())
      modifies this, store
      ensures store.Valid() && Promoting(plan, start, store.Now())
              && store.disk.generations == old(store.disk.generations)
      ensures ContentsMatch(store.sha, store.disk, generationId, OwnLimits(files))
      ensures promoted ==> !removeOnDrop && Candidates(store.disk) == [generationId] + Listed(previous)
      ensures !promoted ==> removeOnDrop == old(removeOnDrop)
      ensures wrote ==> promoted && store.disk.manifestFile == Stored(Chosen()) != start.disk.manifestFile
      ensures AllWork(store.world, old(store.clock)) ==> promoted
      ensures promoted && !wrote ==> old(AlreadySelected())
      ensures old(AlreadySelected()) ==> promoted && !wrote
      ensures !old(AlreadySelected()) ==>
                && (promoted <==> wrote) && (promoted <==> store.world(old(store.clock)).Works?)
                && store.clock == old(store.clock) + 1
                && store.disk == Effect(old(store.disk), ReplaceManifest(Chosen()), store.world(old(store.clock))).0
    {
      hide Promoting, ReadMembers, OwnLimits, GenerationId, Acceptable, Kept;
      var selected := Candidates(store.disk);
      SelectionRead(store.disk, generationId, previous);
      if selected != [] && selected[0] == generationId && Second(selected) == previous {
        promoted, removeOnDrop := true, false;
        return false;
      }
      ghost var before := store.Now();
      SelectedFirst(store.disk, generationId, previous);
      var ok := store.Do(ReplaceManifest(Chosen()));
      SelectedFirst(store.disk, generationId, previous);
      ReplacementIsSafe(plan, start, before, store.Now());
      if !ok { return false; }
      promoted, removeOnDrop := true, false;
      return true;
    }

    // Removes what the new manifest does not select.
    method Prune(ghost plan: Plan, ghost start: Past)
      requires store.Valid() && plan == Plan(store.sha, generationId, previous, plan.held, OwnLimits(files))
      requires Promoting(plan, start, store.Now()) && Acceptable(Chosen())
      requires ContentsMatch(store.sha, store.disk, generationId, OwnLimits(files))
      requires store.disk.manifestFile == Stored(Chosen()) != start.disk.manifestFile
      modifies store
      ensures store.Valid() && Promoting(plan, start, store.Now())
      ensures ContentsMatch(store.sha, store.disk, generationId, OwnLimits(files))
      ensures Candidates(store.disk) == [generationId] + Listed(previous)
      ensures generationId in old(store.disk.generations) && generationId in store.disk.generations
      ensures store.disk.generations[generationId] == old(store.disk.generations[generationId])
    {
      hide Promoting, ReadMembers, OwnLimits, GenerationId, Acceptable, Kept, Unselected;
      ghost var before, unselected := store.Now(), Unselected(store.disk, generationId, previous);
      store.PruneGenerations(generationId, previous);
      PruneIsSafe(plan, start, before, store.Now());
      KeptManifest(before, store.Now(), unselected);
      SelectedFirst(store.disk, generationId, previous);
      KeptSelected(before, store.Now(), generationId, previous);
    }

    method Repair() returns (ok: bool)
      requires Ready()
      modifies store
      ensures store.Valid() && generationId in store.disk.generations
      ensures Kept(old(store.Now()), store.Now(), {generationId})
      ensures old(Held()) ==> Kept(old(store.Now()), store.Now(), {})
      ensures ok ==> ContentsMatch(store.sha, store.disk, generationId, OwnLimits(files))
      ensures store.clock >= old(store.clock) && Acceptable(Chosen())
      ensures repair.None? ==> ok && store.Now() == old(store.Now()) && store.clock == old(store.clock)
      ensures AllWork(store.world, old(store.clock)) ==> (ok <==> old(Repairable()))
    {
      hide Kept, Holding, Holds, ReadMembers, OwnLimits, GenerationId, Writable;
      ghost var p0 := store.Now();
      ghost var held := Held();
      ProducedIdsAreIds(store.sha, files);
      KeptSelf(p0, {generationId});
      KeptSelf(p0, {});
      if repair.None? { return true; }
      ok := store.RepairMembers(generationId, repair.value, files);
      if !ok { return; }
      ghost var p1 := store.Now();
      ok := store.Do(Look);
      ghost var p2 := store.Now();
      KeptOn(p0, p1, p2, {generationId}, {}, {generationId});
      if held { KeptOn(p0, p1, p2, {}, {}, {}); }
      if !ok { return; }
      HeldMatch(store.sha, store.disk, generationId, files);
      ok := store.GenerationContentsMatch(generationId, OwnLimits(files));
      KeptOn(p0, p2, store.Now(), {generationId}, {}, {generationId});
      if held { KeptOn(p0, p2, store.Now(), {}, {}, {}); }
    }

    // Leaving scope: a deferred repair's staging directory goes, and so does a generation this
    // object published but did not promote.
    method Drop()
      requires store.Valid()
      modifies store
      ensures store.Valid() && Kept(old(store.Now()), store.Now(), DropScope())
      ensures AllWork(store.world, old(store.clock)) ==>
                store.disk.generations.Keys == old(store.disk.generations.Keys) - DropScope()
      ensures repair.None? && !promoted && removeOnDrop ==>
                store.disk == Effect(old(store.disk), RemoveDir(generationId), store.world(old(store.clock))).0
    {
      hide Kept;
      ghost var p0 := store.Now();
      KeptSelf(p0, DropScope());
      if repair.Some? {
        var removed := store.Do(RemoveDir(repair.value));
        KeptWider(p0, store.Now(), {repair.value}, DropScope());
      }
      ghost var p1 := store.Now();
      if !promoted && removeOnDrop {
        var removed := store.Do(RemoveDir(generationId));
        KeptOn(p0, p1, store.Now(), DropScope(), {generationId}, DropScope());
      }
    }

    ghost function DropScope(): set<string> reads this {
      (if repair.Some? then {repair.value} else {}) + (if !promoted && removeOnDrop then {generationId} else {})
    }
  }
}
