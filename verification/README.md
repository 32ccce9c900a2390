# Kidobo: a verified model of its fail-closed core

Kidobo keeps a host's firewall blocklist. Its promises are about what is true *in between*: after
every single command, when a step fails, when a step takes effect and still reports failure, when
other programs write to the same tables, and when the next run finds what an interrupted one left.
This project models the code that has to keep these promises and proves them for all inputs.

| file | what it models |
|---|---|
| `Xtables.dfy` | the kernel's filter table, the commands sent to it, and its listings |
| `Wiring.dfy` | the iptables adapter as a class that sends one command at a time; each command may fail before or after it takes effect, and other programs may rewrite the rest of INPUT before each one |
| `PacketPath.dfy` | a packet's way through chains; recovery from any sequence of interrupted runs |
| `Inspection.dfy`, `FamilyProbe.dfy` | reading the wiring back from a listing, and the two rounds of probes |
| `Framing.dfy` | the bytes a cache generation's id is computed from, and hexadecimal |
| `GenerationStore.dfy` | the generation-atomic cache: staging, publication, repair, promotion, pruning and dropping as single disk steps |
| `Rotation.dfy` | refresh after refresh over one store |
| `Networks.dfy`, `Envelope.dfy` | collapsing address blocks, cutting out the safelist, and bounding coverage |
| `Feed.dfy` | bounded parsing of remote lists and the normalized form they are cached in |
| `Extraction.dfy` | blocks taken from a JSON document by a worklist |
| `HttpFetch.dfy`, `RemoteCache.dfy`, `GithubCache.dfy` | conditional fetching, reading and refreshing the caches, and the previews of these refreshes |
| `Ipset.dfy` | replacing a kernel set through a restore script and a swap |
| `Presentation.dfy` | escaping and wrapping terminal text |
| `Ordering.dfy`, `Options.dfy` | strictly sorted sequences, optional values |

How the state-changing parts are stated: `Wiring.Runner`, `GenerationStore.Store` and `Ipset.Runner`
carry a ghost `log` with the state around every command, and a `world` that fixes what goes wrong at
which command. A contract that speaks about `log` speaks about every moment of every run. `Quiet`
says that no other program interferes, `Working` (or `AllWork`) that no command fails; contracts that
need neither hold in every world.

Results worth knowing, where the code does not do what one might expect:

- A rule without any text in the managed chain (`-A kidobo-input` alone) is not counted by the
  listing, so replacing the chain leaves one old rule in front of the new one for each such rule
  (`Wiring.ReplacedAlone` gives the exact condition, `Wiring.BlankRuleSurvives` an input). The
  wanted rule still ends the chain.
- "Right after the manifest is replaced the first candidate validates" holds in every world for a
  generation whose directory was there before, and for one that is selected already
  (`Rotation.Settle`). For a generation that was just published it does not: if the replacement
  takes effect and reports failure, the staged object's drop removes the directory just selected,
  for any files and any disk (`Rotation.LoseFirst`). The copy the reader had loaded stays readable.
- What the reader cannot load under the limits or the selection of the current sync is not kept:
  its id is not handed on. `RemoteCache.SetSizeDecides` and `GithubCache.HeldForAnother` say exactly
  when a copy loads under other limits or for another selection, `RemoteCache.LoseLastCopy` and
  `GithubCache.LoseLastGithubCopy` give worlds in which such a copy is lost and nothing is left.
- The temporary set's name equals the managed one exactly when that is 31 bytes long and ends with a
  hyphen and the suffix drawn (`Ipset.TempNameFacts`). The first command then destroys the managed
  set, or, where there is none, the script fills it in the open (`Ipset.OwnNameBreaks`); only a set
  that packet rules hold on to, or an empty list of entries for a missing set, is safe.
- A replaced chain whose blank rules were not the last ones is not judged verified by the inspection
  (`Inspection.WiredIsVerified`).
- The IPv6 coverage limit of the GitHub envelope never decides anything: the other limits imply it
  (`Envelope.Ipv6CoverageImplied`).

What is taken as given: the digest is any function with 32-byte results (a digest collision is never
excluded; where it matters it is exhibited), JSON and UTF-8 encoders are inverted by their decoders,
a parsed object has each key once (`Extraction.DistinctKeys`), the printed form of a block reads back, a rename and the replacement of one file are atomic, and the
width of a text is the sum of the widths of its parts.

## Model

| member | source | states |
|---|---|---|
| Wiring.Runner.Run | crates/kidobo-adapters/src/iptables.rs:394-408 | one command in a faulty, shared world: INPUT rules that are not managed jumps are neither deleted nor reordered by it, and every goal the command cannot end survives it |
| Wiring.HarmlessKeeps | crates/kidobo-adapters/src/iptables.rs:286-366 | for each of the five goals, on every table, a command of the harmless kind leaves it true |
| Wiring.Runner.ChainExists | crates/kidobo-adapters/src/iptables.rs:109-143 | an answer is given only when it is right, also after the ambiguous diagnostic |
| Wiring.Runner.ReplaceChain | crates/kidobo-adapters/src/iptables.rs:319-366 | the chain is never without a rule, never loses the wanted one, and ends as the wanted rule behind one old rule per rule without text |
| Wiring.Runner.DeleteFromFront | crates/kidobo-adapters/src/iptables.rs:319-366 | counted deletion takes exactly the front rules and never empties the chain |
| Wiring.ReplacedAlone | crates/kidobo-adapters/src/iptables.rs:335-374 | the wanted rule is left alone if and only if every old rule had text |
| Wiring.BlankRuleSurvives | crates/kidobo-adapters/src/iptables.rs:368-374 | an input on which an old RETURN stays in front of the new rule |
| Wiring.Runner.RemoveAllInputJumpsForChain | crates/kidobo-adapters/src/iptables.rs:259-284 | the loop ends, removes every exact jump to the chain and nothing else, and succeeds when the commands work |
| Wiring.Runner.StageJump | crates/kidobo-adapters/src/iptables.rs:286-299 | the staging chain is filled before its jump goes in front, so an armed or enforcing table stays so after every command |
| Wiring.Runner.SwapJumps | crates/kidobo-adapters/src/iptables.rs:300-302 | the direct jump is in front before the staged one goes |
| Wiring.Runner.DropStaging | crates/kidobo-adapters/src/iptables.rs:303-317 | success means the staging chain is gone and the only managed jump is the stable one, with no rule with text before it |
| Wiring.Runner.ValidateInput | crates/kidobo-adapters/src/iptables.rs:306-317 | the final listing is accepted exactly when the stable jump is first and the only managed one; a rejection reports empty positions exactly for the jumps that are missing |
| Wiring.Runner.NormalizeInputJumpFailClosed | crates/kidobo-adapters/src/iptables.rs:286-317 | before/break over every prefix: armed stays armed; from the staging jump on, undisturbed, the wanted rule is enforced at every moment |
| Wiring.Runner.EnsureFirewallWiring | crates/kidobo-adapters/src/iptables.rs:151-167 | whatever fails and whoever else writes to INPUT, an armed table is armed at every moment; undisturbed, one that enforces (and whose leftover staging rules all carry text) keeps enforcing; success leaves exactly the canonical chains; from every recoverable table a working run succeeds |
| Wiring.Runner.CleanupFirewallWiring | crates/kidobo-adapters/src/iptables.rs:212-240 | undisturbed and working, cleanup succeeds if and only if nothing but Kidobo's own jumps holds on to its chains, and then removes exactly these; every step is tried, so whatever failed before, each chain ends empty if its own flush worked, and a kernel that works after the first step loses all stable jumps and both chains' rules |
| Xtables.InputPositions | crates/kidobo-adapters/src/iptables.rs:376-384 | the positions read from a listing are `[1]` exactly when the jump is the first rule with text and occurs once, and none exactly when there is no such jump |
| Xtables.ChainCount | crates/kidobo-adapters/src/iptables.rs:368-374 | the rules counted in a chain's listing are those with text |
| Xtables.RemoveFirstKeeps | crates/kidobo-adapters/src/iptables.rs:259-284 | one deletion removes one occurrence and keeps the order of everything else |
| PacketPath.SetMembersBlocked | crates/kidobo-adapters/src/iptables.rs:25-29 | wherever the wiring enforces the configured rule, the first INPUT rule drops (or rejects, as configured) every packet from the set, whatever rules follow and whatever foreign rules do; none is let in, none falls through |
| PacketPath.InstallBlock | crates/kidobo-adapters/src/iptables.rs:151-167 | after a successful undisturbed run from a table whose managed rules all carry text, the whole INPUT list drops or rejects every set member as configured; the first INPUT rule does so after every command from the staging jump on, even if a later one fails; a working run from a recoverable table succeeds |
| PacketPath.OutsidersUntouched | crates/kidobo-adapters/src/iptables.rs:151-167 | a packet outside the set fares as if Kidobo's jump were not there |
| Wiring.PoliteKeepsOrder | crates/kidobo-adapters/src/iptables.rs:151-167 | rules of other programs that never mention the managed chains leave an orderly table orderly |
| Recovery.RunOnce | crates/kidobo-adapters/src/iptables.rs:151-167 | one undisturbed run from any orderly table ends in the canonical table |
| Recovery.SurviveAttempts | crates/kidobo-adapters/src/iptables.rs:151-240 | after any sequence of interrupted or failed runs and cleanups from an orderly table, with other programs rewriting the rest of INPUT between commands by rules that never mention the managed chains, one run reaches the canonical table of what it meets and another changes nothing; no command touches a foreign rule; armed all the way if only wiring runs came before |
| Recovery.CanonicalIsNormalForm | crates/kidobo-adapters/src/iptables.rs:151-167 | the canonical table depends only on what is not Kidobo's, and normalising twice is normalising once |
| Recovery.CleanTwice | crates/kidobo-adapters/src/iptables.rs:212-240 | cleanup gets through from every such table, and so does cleaning again |
| Inspection.VerifiedExactly | crates/kidobo-adapters/src/inspection.rs:402-503 | a full listing is judged verified if and only if the kernel's table is soundly wired |
| Inspection.JudgedExactly | crates/kidobo-adapters/src/inspection.rs:415-503 | which verdict a full listing gets: absent if and only if no rule of the table leads into a managed chain, verified if and only if it is soundly wired, unknown in every other case |
| Inspection.AbsentIsUnreferenced | crates/kidobo-adapters/src/inspection.rs:450-457 | a listing judged absent comes from a table in which neither INPUT nor any chain refers to a managed chain, whatever the other built-in chains hold |
| Inspection.AbsentIsInert | crates/kidobo-adapters/src/inspection.rs:450-457 | and then taking the managed chains away changes no packet's fate |
| Inspection.UnreadableIsUnknown | crates/kidobo-adapters/src/inspection.rs:415-434 | a line that is no policy, chain or rule, and a missing or repeated INPUT policy, always give unknown |
| Inspection.VerifiedIsSound | crates/kidobo-adapters/src/inspection.rs:415-503 | soundness of that verdict for any listing of any table |
| Inspection.VerifiedBlocksMembers | crates/kidobo-adapters/src/inspection.rs:415-503 | a verified listing means every set member is dropped or rejected, as configured, at the first INPUT rule and by the INPUT list as a whole |
| Inspection.WiredIsVerified | crates/kidobo-adapters/src/inspection.rs:415-503 | whatever a successful wiring run leaves, under any interference that does not mention the managed chains, is judged verified if and only if no replaced rule with text came after one without |
| Inspection.CanonicalIsVerified | crates/kidobo-adapters/src/inspection.rs:415-503 | the canonical table is judged verified |
| FamilyProbe.InspectFamily | crates/kidobo-adapters/src/inspection.rs:215-317 | enforcement is verified, absent or unknown, and the report stable, exactly as both rounds of probes agree; set state, wiring, entries and membership are the first round's unless a change in between withdraws them all, also on the early return |
| FamilyProbe.InspectTable | crates/kidobo-adapters/src/inspection.rs:215-317 | wiring reported as verified means the listed table was soundly wired, absent that nothing in it leads into a managed chain; a stable report says which of the two |
| FamilyProbe.VerifiedTwice | crates/kidobo-adapters/src/inspection.rs:279-303 | equal verified snapshots mean sound wiring at both probes, the same INPUT rules in the same order, the same policy, the same stable rules and the same lines that refer to Kidobo |
| Framing.FrameInjective | crates/kidobo-adapters/src/cache_generation.rs:456-465 | the length-prefixed bytes determine the ordered file list |
| Framing.IdIgnoresOrder | crates/kidobo-adapters/src/cache_generation.rs:285-299 | the id does not depend on the order in which files are declared |
| Framing.FramesTellFilesApart | crates/kidobo-adapters/src/cache_generation.rs:349-365 | different file sets give the digest different bytes |
| Framing.EncodeHex | crates/kidobo-adapters/src/hash.rs:14-30 | the loop writes two lower-case digits per byte |
| Framing.HexRoundTrip | crates/kidobo-adapters/src/hash.rs:14-30 | hexadecimal text decodes to the bytes it came from |
| Framing.ProducedIdsAreIds | crates/kidobo-adapters/src/cache_generation.rs:497-502 | every id produced is one the store accepts |
| GenerationStore.Store.Do | crates/kidobo-adapters/src/cache_generation.rs:334-434 | one disk step under one fault, and which directories it can touch |
| GenerationStore.Store.StageGeneration | crates/kidobo-adapters/src/cache_generation.rs:334-434 | rejects exactly unsafe or ambiguous file lists; on every disk in between all published directories and the manifest are as before; what is staged matches its id; succeeds when steps work and a staging name is free |
| GenerationStore.Store.CreateStagingDirectory | crates/kidobo-adapters/src/cache_generation.rs:436-450 | a fresh empty directory, found whenever one of the next 32 names is free |
| GenerationStore.Store.RepairMembers | crates/kidobo-adapters/src/cache_generation.rs:88-108 | success means the generation holds the staged files; one that held them already is never touched; works exactly when no obstacle is in the way |
| GenerationStore.StagedGeneration.Promote | crates/kidobo-adapters/src/cache_generation.rs:83-143 | until the manifest changes every other directory is kept, afterwards the kept previous and a generation that was right; on every disk with the new manifest the generation comes first and its contents match, also after a deferred repair and when the replacement reports failure; success happens exactly when repair is possible if all steps work |
| GenerationStore.StagedGeneration.SelectFirst | crates/kidobo-adapters/src/cache_generation.rs:116-138 | the manifest is written unless it selects the same already, and its one step decides alone what is selected |
| GenerationStore.StagedGeneration.Prune | crates/kidobo-adapters/src/cache_generation.rs:139-142 | pruning keeps the new first candidate and its contents on every disk |
| GenerationStore.StagedGeneration.Drop | crates/kidobo-adapters/src/cache_generation.rs:147-158 | leaving scope touches at most the deferred repair's staging directory and an unpromoted fresh directory, never the manifest, and removes exactly these when steps work |
| GenerationStore.Store.PruneGenerations | crates/kidobo-adapters/src/cache_generation.rs:467-495 | removes only directories the manifest does not select, and all of them when steps work |
| GenerationStore.Store.CleanupUnselectedGenerations | crates/kidobo-adapters/src/cache_generation.rs:216-264 | removes unselected directories only, and nothing when a manifest exists but cannot be used |
| GenerationStore.HeldMatch | crates/kidobo-adapters/src/cache_generation.rs:266-300 | a directory holding the files validates under their id |
| GenerationStore.CandidatesExactly | crates/kidobo-adapters/src/cache_generation.rs:161-214 | a manifest selects its one or two ids, the current one first, exactly when it has the schema version and names well-formed, different ids; any other selects nothing |
| GenerationStore.SafeNamesStay | crates/kidobo-adapters/src/cache_generation.rs:504-510 | a name is accepted if its characters are letters, digits, dot, underscore and hyphen and it does not start with a dot; no accepted name has a slash |
| Rotation.RefreshOnce | crates/kidobo-adapters/src/cache_generation.rs:83-159 | a refresh that is given the id its caller validated keeps that copy selected and readable on every disk in between, or exhibits a digest collision; promotes exactly when wanted and possible if all steps work |
| Rotation.Settle | crates/kidobo-adapters/src/cache_generation.rs:83-159 | promoting or abandoning keeps a good copy that the next manifest lists; in every world the new generation is first and matches on every disk with the new manifest, unless it was published by this object and its promotion reported failure |
| Rotation.NextFacts | crates/kidobo-adapters/src/cache_generation.rs:409-425 | the next manifest is always acceptable and keeps the validated copy |
| Rotation.IdenticalRefreshKeepsOlder | crates/kidobo-adapters/src/cache_generation.rs:409-425 | an identical refresh leaves the selection as it is; one that brings the second copy back drops the broken first |
| Rotation.LoseFirst | crates/kidobo-adapters/src/cache_generation.rs:128-158 | that exception cannot be dropped: for any generation just published and not selected yet there is a world that selects it and removes it |
| Rotation.SettleKeeping | crates/kidobo-adapters/src/cache_generation.rs:409-425 | after cleaning up, reading and staging, the copy whose id was handed on is good on every disk until the sync ends, or the new files have its digest |
| Networks.MergeIntervals | crates/kidobo-core/src/network.rs:274-297 | the same addresses in ascending intervals with gaps between them |
| Networks.SeparatedUnique | crates/kidobo-core/src/network.rs:274-366 | such intervals are determined by their addresses, so the result does not depend on how the input was sorted |
| Networks.LargestPrefix | crates/kidobo-core/src/network.rs:520-534 | the largest aligned block that starts here and fits |
| Networks.ToBlocks | crates/kidobo-core/src/network.rs:218-244 | canonical ascending blocks with the same addresses, none of which could be larger |
| Networks.Collapse | crates/kidobo-core/src/network.rs:103-115 | the same addresses in minimal blocks, for both families |
| Networks.CollapseIsShortest | crates/kidobo-core/src/network.rs:101-115 | no list of blocks with the same addresses is shorter |
| Networks.CollapseUnique | crates/kidobo-core/src/network.rs:101-115 | the result depends on the addresses only |
| Networks.SubtractIntervals | crates/kidobo-core/src/network.rs:393-453 | the addresses of the base that are not carved away, by one pass over both lists |
| Networks.SubtractSafelist | crates/kidobo-core/src/network.rs:145-185 | exactly the candidate addresses that are not on the safelist, in minimal blocks |
| Envelope.WithinEnvelope | crates/kidobo-adapters/src/github_meta.rs:673-695 | accepted if and only if there are at most 4096 entries, prefixes are at least 8 and 16, and the number of distinct IPv4 addresses is at most 2^28 |
| Envelope.Coverage | crates/kidobo-adapters/src/github_meta.rs:683-691 | the checked sum is the number of distinct addresses; no shift and no addition overflows |
| Envelope.Ipv6CoverageImplied | crates/kidobo-adapters/src/github_meta.rs:39-43 | 4096 blocks of prefix 16 or longer cover at most 2^124 addresses |
| Envelope.TotalIsUnion | crates/kidobo-adapters/src/github_meta.rs:683-691 | sizes of disjoint blocks add up to the size of their union |
| Feed.FeedsFitTheirLines | crates/kidobo-adapters/src/remote_parse.rs:15-22 | for any set size and any word size the block limit never exceeds the line limit; with words of at least 32 bits both limits are twice the set size between their bounds |
| Feed.LineExactly | crates/kidobo-adapters/src/remote_parse.rs:47-69 | after byte-order marks and blanks, a line's block is its word up to the next blank or comma; a leading number sign makes it a comment, a leading comma leaves it without a block |
| Feed.ParseBounded | crates/kidobo-adapters/src/remote_parse.rs:38-84 | the distinct blocks of the feed, or the first budget some line breaks |
| Feed.AcceptedWithinBudgets | crates/kidobo-adapters/src/remote_parse.rs:38-84 | accepted if and only if data lines and distinct blocks stay within both budgets |
| Feed.ParsedMeaning | crates/kidobo-adapters/src/remote_parse.rs:38-84 | what is accepted is strictly ascending and is exactly what the first words of data lines parse to |
| Feed.OutcomeUnique | crates/kidobo-adapters/src/remote_parse.rs:38-84 | a text breaks one budget first, or none |
| Feed.FormatNormalized | crates/kidobo-adapters/src/remote_parse.rs:93-102 | the loop writes one block per line |
| Feed.PrintedReadsBack | crates/kidobo-adapters/src/remote_parse.rs:86-102 | printing and parsing again gives the same list |
| Feed.AcceptedReadsBack | crates/kidobo-adapters/src/remote_parse.rs:15-102 | the round trip of everything accepted from the network, under the same limits |
| Extraction.CollectNetworks | crates/kidobo-adapters/src/github_meta.rs:726-749 | the worklist ends and finds exactly the blocks in string leaves |
| Extraction.FirstWordCounts | crates/kidobo-core/src/network.rs:38-45 | a string gives the block its first word is, whatever blanks and words surround it; a blank one gives none |
| Extraction.ExtractNetworks | crates/kidobo-adapters/src/github_meta.rs:705-724 | strictly sorted; for an object with distinct keys, a block is in it if and only if it is found in the value of a member whose key is selected, or anywhere if everything is |
| Extraction.BlocksAreFound | crates/kidobo-adapters/src/github_meta.rs:726-749 | the recursive depth-first definition finds the same blocks |
| Extraction.EmptyMeansNoScalar | crates/kidobo-adapters/src/github_meta.rs:697-703 | a tree of containers is empty if and only if it holds no scalar |
| Extraction.ParseAndExtract | crates/kidobo-adapters/src/github_meta.rs:636-671 | gives a list exactly when one is acceptable, and then that one: every selected category is some member's key, the list is what the chosen subtrees hold, an empty one comes only from subtrees without scalars, and the envelope is kept |
| Extraction.ExtractExactly | crates/kidobo-adapters/src/github_meta.rs:636-671 | the recursive definition is that same specification, stated on the members and the categories alone |
| HttpFetch.FetchMeaning | crates/kidobo-adapters/src/http_fetch.rs:22-68 | the cache stands in only when usable, and a "not modified" body only ever comes from an unconditional request |
| RemoteCache.LoadRemoteCache | crates/kidobo-adapters/src/http_cache.rs:585-622 | the loop returns the first candidate that validates and parses, else the legacy files |
| RemoteCache.LoadedExactly | crates/kidobo-adapters/src/http_cache.rs:585-613 | a generation loads if and only if its files are within their limits and match its id and their own digests, its URL is the configured one up to blanks and not blank, and its list is within both budgets; it gives that list |
| RemoteCache.ReadExactly | crates/kidobo-adapters/src/http_cache.rs:585-622 | the earliest selected generation that loads, and otherwise the legacy files, which fail the read exactly when their list is there but is too long or no text |
| RemoteCache.CleanupKeepsReading | crates/kidobo-adapters/src/http_cache.rs:342-358 | cleaning up first does not change what is read |
| RemoteCache.ValidatedExactly | crates/kidobo-adapters/src/http_cache.rs:474-527 | accepted if and only if the status is a success, the body and both counts are within bounds, and a feed with data says at least one block; the blocks are then exactly those, ascending |
| RemoteCache.HandleNetworkResponse | crates/kidobo-adapters/src/http_cache.rs:418-472 | makes the preview's choice, or falls back because staging failed |
| RemoteCache.Prepare | crates/kidobo-adapters/src/http_cache.rs:342-472 | the cache and the answer that counts decide the result: with a usable list a failure, a "not modified", a rejected, oversized or unstageable response keep that very list, and otherwise it is exactly the server's, with its validators and digests; without one, exactly when the list is empty and when the sync fails; sync and preview agree whenever staging works |
| RemoteCache.PreviewExactly | crates/kidobo-adapters/src/http_cache.rs:241-333 | what the preview shows, online and offline, by the same cache and the same answer, and that it fails exactly when the cache cannot be read |
| RemoteCache.ValidatedReadsBack | crates/kidobo-adapters/src/http_cache.rs:474-527 | the normalized text of a validated response parses to the same networks |
| RemoteCache.HeldIsReadable | crates/kidobo-adapters/src/http_cache.rs:537-613 | what was staged reads back exactly as loaded if and only if the metadata is within its read limit and the URL is not blank |
| RemoteCache.PrepareAndPromote | crates/kidobo-adapters/src/http_cache.rs:418-613 | after a promotion the next read under the same limits gives exactly the loaded networks, or the generation's directory holds other files with the same digest |
| RemoteCache.SyncFeed | crates/kidobo-adapters/src/http_cache.rs:342-472 | one sync with any faults: if the code's own reader finds networks at the start, it finds networks on every disk in between under the same URL and limits, or the loaded directory has the new files' digest |
| RemoteCache.SyncForever | crates/kidobo-adapters/src/http_cache.rs:342-622 | the same over any number of syncs |
| RemoteCache.LimitsDecide | crates/kidobo-adapters/src/http_cache.rs:585-622 | a generation that loads under some limits loads under others, with the same networks, if and only if its list is within these |
| RemoteCache.SetSizeDecides | crates/kidobo-adapters/src/http_cache.rs:585-622 | for what a sync staged: if and only if it holds no more networks than the block limit of the new set size |
| RemoteCache.LoseLastCopy | crates/kidobo-adapters/src/http_cache.rs:342-472 | a copy that does not load under the current limits is not kept: a world in which nothing loads any more, under the earlier limits either |
| GithubCache.NormalizingTwice | crates/kidobo-adapters/src/github_meta.rs:802-817 | normalizing categories gives a normal list and leaves one as it is |
| GithubCache.NormalizedExactly | crates/kidobo-adapters/src/github_meta.rs:802-817 | the normal list is ascending and holds exactly the trimmed names that are not blank, with A to Z lowered |
| GithubCache.OwnScope | crates/kidobo-adapters/src/github_meta.rs:751-799 | the sidecar written for a selection is compatible with it |
| GithubCache.LoadCache | crates/kidobo-adapters/src/github_meta.rs:352-403 | primary and fallback are the first two usable of current, previous and legacy |
| GithubCache.VouchedExactly | crates/kidobo-adapters/src/github_meta.rs:405-474 | files are usable if and only if the document gives networks, its metadata has its digest and the configured URL up to blanks, and the recorded scope fits; without metadata only legacy files count, and only for the default URL |
| GithubCache.UsableExactly | crates/kidobo-adapters/src/github_meta.rs:352-391 | a generation is usable if and only if it matches its id and its three files, read within their limits, are usable |
| GithubCache.PrepareGithub | crates/kidobo-adapters/src/github_meta.rs:190-241 | the cache and the answer that counts decide list, source, metadata and fallback; with a usable list a failed, unchanged, rejected or unstageable refresh keeps that very list; sync and preview agree whenever staging works |
| GithubCache.PreviewGithubExactly | crates/kidobo-adapters/src/github_meta.rs:259-308 | what the preview shows, online and offline, with its fallback, by the same cache and the same answer |
| GithubCache.GivesExactly | crates/kidobo-adapters/src/github_meta.rs:542-575 | a response gives a list if and only if it is a success within the size limit and its document yields that list for the selection |
| GithubCache.HandleGithubResponse | crates/kidobo-adapters/src/github_meta.rs:492-540 | the same for one response, with what is left to be promoted |
| GithubCache.HeldGithubReads | crates/kidobo-adapters/src/github_meta.rs:405-474 | a held generation reads back as loaded if and only if its two small files are within their limits |
| GithubCache.PromotedGithubReads | crates/kidobo-adapters/src/github_meta.rs:352-403 | after a promotion the cache starts with exactly the loaded networks, or the generation's directory holds other files with the same digest |
| GithubCache.SyncGithub | crates/kidobo-adapters/src/github_meta.rs:190-241 | one sync with any faults: if the code's own reader finds networks at the start, it finds networks on every disk in between, or the loaded directory has the new files' digest; after a promotion the next read starts with exactly what was loaded |
| GithubCache.SyncForever | crates/kidobo-adapters/src/github_meta.rs:190-403 | the same over any number of syncs for one selection and URL |
| GithubCache.SelectionDecides | crates/kidobo-adapters/src/github_meta.rs:751-799 | what was recorded for one selection is compatible with another if and only if that takes everything or is the same |
| GithubCache.HeldForAnother | crates/kidobo-adapters/src/github_meta.rs:405-474 | what was staged for one selection is usable for another if and only if the scopes are compatible and the document gives networks for it |
| GithubCache.LoseLastGithubCopy | crates/kidobo-adapters/src/github_meta.rs:190-241 | a copy that is not usable for the current selection is not kept: a world in which nothing is left |
| Ipset.TruncateToMaxBytes | crates/kidobo-adapters/src/ipset.rs:526-536 | cuts at the last character boundary within the limit |
| Ipset.TempNameFacts | crates/kidobo-adapters/src/ipset.rs:293-302 | at most 31 bytes; a name of up to 22 bytes is kept whole, an empty one becomes "kidobo"; equal to the managed name if and only if that is 31 bytes long and ends with a hyphen and the suffix |
| Ipset.SomeNameIsItsOwn | crates/kidobo-adapters/src/ipset.rs:293-302 | such a name exists |
| Ipset.SortedUniqueEntries | crates/kidobo-adapters/src/ipset.rs:454-470 | the fast path and the sorting path give the same strictly increasing list |
| Ipset.WriteRestoreScript | crates/kidobo-adapters/src/ipset.rs:421-452 | create, one line per distinct entry, swap |
| Ipset.Swapping | crates/kidobo-adapters/src/ipset.rs:421-441 | the whole script works exactly when the temporary name is free, the managed set is compatible and there is room; then the managed set holds exactly the entries |
| Ipset.Runner.Restore | crates/kidobo-adapters/src/ipset.rs:367-404 | every state met is one that a working part of the script leads to |
| Ipset.ReachedIsOldOrNew | crates/kidobo-adapters/src/ipset.rs:421-441 | on every such state the managed set is old or exactly new, and other sets are untouched |
| Ipset.Runner.AtomicReplace | crates/kidobo-adapters/src/ipset.rs:310-324 | all or nothing after every command, with any failures, wherever replacing is safe (another name, a set in use, or neither set nor entries); working commands succeed exactly when the set is compatible and has room, and leave no temporary set |
| Ipset.OwnNameBreaks | crates/kidobo-adapters/src/ipset.rs:293-324 | where replacing is not safe, the first or the second command already leaves neither the old nor the new set |
| Presentation.Escape | src/cli/presentation.rs:238-258 | the loop writes the escape of each character |
| Presentation.EscapeRoundTrip | src/cli/presentation.rs:238-258 | no control character is left, and the input is recovered exactly |
| Presentation.EscapeUnchanged | src/cli/presentation.rs:238-258 | a text is left as it is if and only if it has neither a control character nor a backslash; tab, line feed, carriage return and backslash get their short escapes |
| Presentation.WrapEncoded | src/cli/presentation.rs:391-423 | every line fits unless it is one wider grapheme cluster, the text without spaces is kept, words that fit a line are not cut, and a line ends only where the next word does not fit |

## Left out

- Subprocesses, locking and signals: a command is one step that may fail before or after it takes effect; diagnostics are reduced to missing, ambiguous and other failure.
- Kernel refusals beyond the modelled ones (loop detection, unknown matches): they are faults. Rule text is a sequence of words, so quoting and repeated blanks are not modelled.
- Interference by other programs is modelled for INPUT only, and other programs leave the managed jumps and chains alone; erasing a chain needs it empty and unreferenced, as in the kernel.
- The adapter's loops over address families and over creation of chains and sets: each family is one independent run.
- Recovery.SurviveAttempts: other programs' rules that mention the managed chains are not covered; what holds under them is stated by `Wiring.Runner.EnsureFirewallWiring`.
- Concurrent writers of one cache store: one staged generation is outstanding at a time.
- Reading the cache does not fail at random: a read error is a missing or unusable file. Reads inside staging and repair may fail.
- HTTP transport, redirects and TLS: the client is any answer to the first and any answer to the second request. Notices and log messages are not modelled.
- RemoteCache.SyncFeed: the metadata text is shorter than a machine word counts; the bound on responses is the source's own.
- URL hashes and paths: a store belongs to one URL. `collect_offline_remote_generations` and `inspect_cached_source` repeat the modelled reads.
- The radix sort used for long lists: any order by start gives the same merged intervals, by `Networks.SeparatedUnique`; the sort itself is a functional insertion sort here.
- Text of one address block: parsing and printing are parameters with the contract that printing reads back.
- The set header's parser and the membership probe of the inspection: their results are parameters of `FamilyProbe.InspectFamily`.
- Networks.SubtractSafelist: subtraction is modelled once for any width instead of once per family, with unbounded integers whose bounds are proved.
- Presentation.WrapEncoded: display widths are taken to add up, which holds per grapheme cluster but not inside one.
- TOML editing, views, prompts, argument parsing, doctor, systemd, ASN and local lists: no member here would be hard.
