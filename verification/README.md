# Verified model of the CoreDNS plugins

A Dafny model of the stateful and wire-level engines in this repository, with proofs of
what they promise over whole runs and for all inputs:

- **dynupdate**: RFC 2136 UPDATE processing on an in-memory zone whose record objects are
  shared between the live zone and the update in progress, whose slices are edited in place
  (`Names`, `Zone`, `ZoneInvariant`,
  `ZoneProperties`, `ZoneAdmission`, `ZoneEffects`, `DynUpdate`).
- **sni_tls**: certificate hot reload by any number of poll loops against non-atomic file
  rotation (`Reload`), the start/stop registry it shares with radnr (`Lifecycle`), and
  certificate selection by server name (`Sni`).
- **radnr**: the Router Advertisement timer (`RaSchedule`) and the RFC 9463 option codec
  with its domain name codec (`DomainName`, `Dnr`).
- **probe**: the observation store (`Observations`, `MemStore`) and the query name grammar
  (`Modifiers`, `ProbeQuery`).
- **cookie**: DNS Cookies and the rollout of server secrets (`Cookie`, `Rollout`).

`dafny verify dfyconfig.toml` checks everything.

## How the model is built

Code that updates fields or loops is modelled by classes and methods; each method is
proved equal to a function over values, and the properties are lemmas about that
function. Protocols (reload, registry, advertisement loop, rollout) are step systems or
objects driven by arbitrary call sequences. Library behaviour is a parameter: the
subdomain test, the set of recognised types and the insertion into a servable view are
functions in `Zone.Config`; SipHash is any function to eight octets; which certificate
files make a build give up is a predicate on what has been read so far; random draws and
clock readings are arguments constrained to their ranges.

What the proofs take for granted about inputs:

- Records reach dynupdate from the message unpacker or the zone parser, so owner names
  are fully qualified and a record's Go type follows its TYPE field (`Zone.Parsed`). The
  zone it starts from is well-formed and its origin is stored fully qualified in lower case.
- A file that is rewritten gets contents it never had before, and the digest tells any
  two sets of contents apart: a file is a version number that only grows, and a digest is
  the versions it was computed from. Safety over runs starts from a store and a digest
  taken of the same contents; `Reload.SetupHandsOver` says when setup provides that, and
  `Reload.InstallsDiskIff` does without it.
- Handlers of the advertisement loop take no time. The rate limit needs nothing about
  timers; the absence of deferrals needs that no timer fires early; the deadlines need
  timers that fire when due.
- The clocks of the servers in a cookie rollout agree within some d of at most the five
  minutes a cookie may lie ahead; how long the operator waits is counted in true time.

## Findings

- `sameName` in dynupdate is not canonicalise-then-compare for every ASCII name: a name
  whose last dot is escaped is missed (`Names.SameNameMissesEscapedDot`). That is the only
  bad family (`Names.SameNameCorrectIff`), and names from the wire are never in it.
- Two SOA adds in one UPDATE can move the serial backwards in RFC 1982 order, under a
  NOERROR answer (`ZoneProperties.TwoSoaAddsGoBack`, `ZoneProperties.SerialCanGoBack`). It
  moves forward if and only if the section's accepted SOA adds end ahead of the old serial
  (`ZoneProperties.SuccessMovesSerial`), as they do when there is at most one.
- dynupdate setup only logs a failed first build (dynupdate/setup.go:26-38), so a server can
  run without a view. It has one exactly once the seed or some UPDATE has built
  (`ZoneInvariant.ViewStaysInStep`); `ZoneProperties.SeedWithoutView` exhibits a seed.
- sni_tls setup builds the store before it takes the digest (sni_tls/setup.go:48-53). A
  rotation between the two is not picked up by any number of polls until the files change
  again (`Reload.SetupRaceSticks`). The pollers start consistent if and only if setup read
  the same contents twice (`Reload.SetupHandsOver`).
- The deferral branch of the advertisement timer is dead code exactly for intervals of at
  least 3 s, the shipped 30 s included (`RaSchedule.DeferralIsDeadIff`).
- The comment at probe/observe.go:589 says the sighting count stays truthful once detail
  is no longer retained; the code saturates it at `MaxPerToken + 1`, and so does the model
  (`Observations.SeenIsTruthfulIff`).
- The probe name parser lets one empty label stand between the modifiers and the token, as
  in `_big..<token>` or `.<token>`, where the comment at probe/labels.go:270-274 would have
  an extra label refused. That is all it adds to the grammar (`ProbeQuery.ParsesExactly`).
- The wait before an old cookie secret is dropped cannot be shortened: with clocks at most
  d apart, every cookie up to an hour less d is accepted everywhere if the wait exceeds an
  hour less d (`Rollout.EveryServerAccepts`), and for any shorter wait some run refuses one
  (`Rollout.ShorterWaitIsTooShort`).

## Model

| member | source | states |
|---|---|---|
| Names.FoldByteMerges | sni_tls/sni_tls.go:186-209 | two bytes fold together only if equal or the two cases of one ASCII letter |
| Names.IsAscii | dynupdate/zone.go:42-49 | the scan decides whether any byte has its high bit set |
| Names.EqualFoldAscii | dynupdate/zone.go:53-70 | the in-place loop decides equality of the folded strings |
| Names.LowerAscii | sni_tls/sni_tls.go:194-209 | copy-on-first-upper-case folding yields the ASCII fold |
| Names.SameNameInPlace | dynupdate/zone.go:29-39 | the byte loops decide the comparison with a canonical name |
| Names.SameNameExact | dynupdate/zone.go:20-39 | for every name and canonical argument, agreement with canonicalise-then-compare holds exactly unless the name is ASCII, ends in an escaped dot and the argument is its canonical form |
| Names.SameNameCorrectIff | dynupdate/zone.go:20-39 | over all canonical arguments the comparison is right if and only if the last dot is not escaped |
| Names.SameNameMissesEscapedDot | dynupdate/zone.go:34-38 | a concrete name the comparison gets wrong |
| Zone.OwnsMeaning | dynupdate/zone.go:29-39 | for a record of any owner outside the escaped-dot family, the in-place comparison decides equality of canonical owners |
| Zone.PrefilterIsSound | dynupdate/zone.go:130-146 | comparing type and owner first never hides a record the full key would match, whether or not the owner is fully qualified |
| ZoneInvariant.ApexIsEnough | dynupdate/setup.go:70-82 | every origin has a well-formed zone to start from: its SOA and one apex NS |
| ZoneInvariant.ExactlyOneSoa | dynupdate/zone.go:214-221 | a well-formed zone has one SOA, at the apex, and the serial scan finds it |
| ZoneInvariant.AddKeeps | dynupdate/update.go:287-330 | an add keeps the zone well-formed: SOA and CNAME replace, CNAME exclusivity both ways, no duplicates |
| ZoneInvariant.DeleteRRsetKeeps | dynupdate/update.go:335-353 | deleting RRsets spares the apex SOA and NS and keeps the zone well-formed |
| ZoneInvariant.DeleteRecordKeeps | dynupdate/update.go:358-370 | deleting one record never takes the SOA or the last apex NS |
| ZoneInvariant.ApplyKeeps | dynupdate/update.go:248-275 | a whole update section keeps the zone well-formed |
| ZoneInvariant.WithSerialKeeps | dynupdate/update.go:58-64 | settling the serial keeps the zone well-formed |
| ZoneInvariant.ServeKeeps | dynupdate/update.go:42-68 | one message, whatever its answer, keeps the zone well-formed |
| ZoneInvariant.ServeKeepsView | dynupdate/dynupdate.go:154-162 | records and view stay in step, any answer but NOERROR changes neither, and a missing view appears exactly when a message swaps |
| ZoneInvariant.ViewStaysInStep | dynupdate/setup.go:26-38 | from setup on, over every run, the view is the one the records build to, and there is one to serve if and only if the seed built or some message swapped |
| ZoneProperties.SeedWithoutView | dynupdate/setup.go:26-38 | a well-formed seed that setup keeps without a view |
| ZoneInvariant.EveryRunStaysWellFormed | dynupdate/update.go:14-80 | after every sequence of messages the zone is well-formed |
| ZoneProperties.PrefilteredScanIsKeySearch | dynupdate/zone.go:122-146 | the prefiltered scan stops at the same index as a search by full record key, for owners fully qualified or not |
| ZoneProperties.UnchangedMeansIdentical | dynupdate/update.go:246-275 | an update section that reports no change left the record sequence identical |
| ZoneProperties.NextSerialAdvances | dynupdate/zone.go:243-250 | the automatic increment is by one, skips 0 at the wrap, and is greater in RFC 1982 order |
| ZoneProperties.SerialOrder | dynupdate/zone.go:223-227 | the comparison is RFC 1982: irreflexive, asymmetric, undefined exactly between antipodes |
| ZoneProperties.ApplySerial | dynupdate/update.go:292-300 | the serial an update section leads to is read off the section alone, each apex SOA add measured against the one reached before |
| ZoneProperties.SuccessMovesSerial | dynupdate/update.go:49-64 | NOERROR either reports no change and made none, or changes the serial; forward if and only if the accepted SOA adds end ahead of the old serial, as at most one always does |
| ZoneProperties.TwoSoaAddsGoBack | dynupdate/update.go:292-300 | in any well-formed zone two SOA adds of just under half the number space each end two below, under a NOERROR answer |
| ZoneProperties.SerialCanGoBack | dynupdate/update.go:292-300 | a concrete zone at any serial and the message that takes it back |
| ZoneProperties.AllowlistIsAirtight | dynupdate/update.go:227-241 | under a type allowlist the records of every other type, the SOA apart, survive in order |
| ZoneProperties.AllowlistHoldsForever | dynupdate/update.go:227-241 | the same over every sequence of messages |
| ZoneProperties.VerdictIsDemand | dynupdate/update.go:140-180 | the per-record prerequisite verdict passes exactly when section 3.2 of RFC 2136 is met |
| ZoneProperties.ValueDependentMeaning | dynupdate/update.go:131-135 | comparing collected RRsets means equal occurrence counts of every record, TTL ignored |
| ZoneProperties.PrereqsMeaning | dynupdate/update.go:96-138 | the prerequisite section succeeds if and only if every prerequisite holds |
| ZoneAdmission.ObjectionMeaning | dynupdate/update.go:104-180 | the rcode for each way a single prerequisite can fail, said of the zone's owners and RRsets |
| ZoneAdmission.PrereqsStopAt | dynupdate/update.go:102-129 | the first prerequisite with an objection decides |
| ZoneAdmission.ContentsLast | dynupdate/update.go:131-137 | differing RRset contents come last, as NXRRSET |
| ZoneAdmission.PrescanMeaning | dynupdate/update.go:198-243 | section 3.4.1, declaratively, with the rcode for each fault |
| ZoneAdmission.PrescanStopsAt | dynupdate/update.go:185-192 | the first update record at fault decides, with its rcode |
| ZoneAdmission.LetThroughIff | dynupdate/update.go:14-47 | a message gets past the checks if and only if it has one SOA question for this zone, is signed, meets every prerequisite and has only clean update records |
| ZoneAdmission.TurnedAwayWith | dynupdate/update.go:15-47 | the rcode of the first check a message fails: FORMERR, NOTAUTH, REFUSED, then prerequisites, then prescan |
| ZoneAdmission.UnsignedNeverMatter | dynupdate/update.go:29-37 | over every run, unsigned messages might as well not have been sent |
| ZoneAdmission.AnswersAfterChecks | dynupdate/update.go:49-68 | past the checks the answer is SERVFAIL exactly when a change cannot be built |
| ZoneAdmission.BuildInsertsAll | dynupdate/dynupdate.go:136-152 | a build gives the view every record, in order |
| ZoneAdmission.BuildFailsIff | dynupdate/dynupdate.go:138-145 | a build fails if and only if some record is refused by the view of those before it |
| ZoneEffects.AddOtherMeaning | dynupdate/update.go:301-330 | an add not barred by a CNAME leaves its record with its TTL and every other record but the CNAME it replaces |
| ZoneEffects.SoaAddMeaning | dynupdate/update.go:288-300 | an apex SOA with a greater serial replaces the zone's and nothing else |
| ZoneEffects.RRsetDeletedMeaning | dynupdate/update.go:335-353 | exactly the records of that type at the name go, the apex SOA and NS apart |
| ZoneEffects.RecordDeletedMeaning | dynupdate/update.go:358-370 | exactly that record goes, unless it is the apex SOA or the only apex NS |
| ZoneEffects.OneRecordMeaning | dynupdate/update.go:264-271 | which records are there after one update record of any form, if and only if |
| ZoneEffects.ChangeIsReported | dynupdate/update.go:248-370 | one update record reports a change exactly when it made one |
| ZoneEffects.SectionSteps | dynupdate/update.go:253-275 | the records of a section take effect one after the other, in order |
| ZoneEffects.MessageTakesEffect | dynupdate/update.go:49-80 | a message answered NOERROR takes effect, record by record, and nothing else changes but the serial |
| ZoneEffects.SingleUpdateTakesEffect | dynupdate/update.go:49-80 | for a message with one update record, which records other than the SOA are served after, if and only if |
| DynUpdate.IndexOfRR | dynupdate/zone.go:130-146 | the loop returns the first matching index |
| DynUpdate.CountRRset | dynupdate/zone.go:180-188 | the loop counts the records of an RRset |
| DynUpdate.SoaOf | dynupdate/zone.go:214-221 | the first record whose Go type is SOA |
| DynUpdate.SameRRsetByCounting | dynupdate/zone.go:150-166 | the counting loops decide multiset equality of record identities |
| DynUpdate.JudgePrereqs | dynupdate/update.go:96-138 | the answer is the specified one for every iteration order of the collected RRsets |
| DynUpdate.DeleteWhere | dynupdate/zone.go:168-178 | keeps exactly the unselected records in order, in an array of its own, and reports whether any went |
| DynUpdate.SetTtl | dynupdate/update.go:310-321 | the slice element is overwritten by a copy with the new TTL; no existing record is written |
| DynUpdate.BumpSerial | dynupdate/zone.go:237-254 | the slice element is overwritten by an incremented copy of the SOA, wrapping at 2^32 and skipping 0 |
| DynUpdate.CopySlice | dynupdate/update.go:249-250 | a fresh array holding the same record objects |
| DynUpdate.Append | dynupdate/update.go:299-329 | appends in place while capacity lasts, into a fresh array after |
| DynUpdate.RemoveAt | dynupdate/update.go:366 | the in-place shift takes out exactly one element |
| DynUpdate.IsExcluded | dynupdate/update.go:301-308 | the scans decide CNAME exclusivity in both directions |
| DynUpdate.ReplaceSoa | dynupdate/update.go:288-300 | serial gating and replacement of the SOA |
| DynUpdate.ApplyOther | dynupdate/update.go:310-329 | a matching record gets its TTL, any other joins, a CNAME replacing the one at its name |
| DynUpdate.ApplyAdd | dynupdate/update.go:287-330 | the add form, result and changed flag |
| DynUpdate.ApplyDeleteRRset | dynupdate/update.go:335-353 | the delete-RRset forms, result and changed flag |
| DynUpdate.ApplyDeleteRecord | dynupdate/update.go:358-370 | the delete-record form, result and changed flag, by a shift within the slice's own array |
| DynUpdate.ApplyAll | dynupdate/update.go:248-275 | the section applied left to right to a slice in a fresh array that shares the live records; neither the live array nor a live record is written |
| DynUpdate.FixSerial | dynupdate/update.go:58-64 | the serial is bumped unless the update moved it |
| DynUpdate.Server.constructor | dynupdate/setup.go:26-38 | setup swaps the seed in; a seed that does not build is kept without a view |
| DynUpdate.Server.CheckPrereqs | dynupdate/update.go:96-138 | the prerequisites judged against the live records |
| DynUpdate.Server.Prescan | dynupdate/update.go:185-192 | the verdict on the first failing update record |
| DynUpdate.Server.Build | dynupdate/dynupdate.go:136-152 | inserts copies, so the records themselves keep their names; fails at the first refusal |
| DynUpdate.Server.Swap | dynupdate/dynupdate.go:155-162 | installs records and view together or not at all |
| DynUpdate.Server.Admit | dynupdate/update.go:15-47 | every check before the first change, in order |
| DynUpdate.Server.Commit | dynupdate/update.go:49-68 | apply, settle the serial, rebuild, swap; a failed rebuild leaves the object unchanged |
| DynUpdate.Server.ServeUpdate | dynupdate/update.go:14-80 | atomicity on the heap: no record object and no backing array that existed is written, any answer but NOERROR leaves slice and view, a new slice lies in a fresh array, message records never enter the zone |
| DynUpdate.Server.ServeAll | dynupdate/update.go:14-80 | any sequence of messages comes to the run of the specification |
| Reload.StepKeeps | sni_tls/reload.go:152-168 | every step keeps the installed store loadable, no older than the digest, no newer than the disk, and never back |
| Reload.EveryRunIsSafe | sni_tls/reload.go:32-49 | the same over every interleaving of poll loops and rotations |
| Reload.Converges | sni_tls/reload.go:148-168 | from any reachable state, once files are quiet and loadable, one completed reload leaves exactly the disk installed, and it stays so through every further poll |
| Reload.ReloadKeepsItsPromise | sni_tls/reload.go:32-49 | the whole promise from a consistent start: any run is safe and never goes back, and any quiet spell after it converges |
| Reload.Completes | sni_tls/reload.go:152-168 | a reload that is left alone completes |
| Reload.InstallsDiskIff | sni_tls/reload.go:156-166 | from any idle state, a completed reload of a quiet loadable disk, amid any other polls, installs it for good if and only if the digest did not already vouch for it over another store; the digest vouches for it after |
| Reload.StuckStays | sni_tls/reload.go:156-160 | once the digest vouches for the disk, no number of polls in any interleaving changes the store |
| Reload.SetupHandsOver | sni_tls/setup.go:48-53 | whatever rotates during setup, the store is loadable and never newer than its digest, and the pollers start consistent if and only if the two agree |
| Reload.SetupRaceSticks | sni_tls/setup.go:48-53 | a run of setup in which one file rotates between build and digest, after which no poll of any loops picks the file up while the files stay as they are |
| Reload.UnserialisedLoopsStick | sni_tls/reload.go:32-39 | a run of two loops without the mutex that leaves an old store under a newer digest, and no later poll changes it |
| Lifecycle.Registry.Sweep | sni_tls/reload.go:124-129 | exactly the object's own previous loop and other instances' loops are cancelled |
| Lifecycle.Registry.Adopt | radnr/radnr.go:124-135 | the new loop joins the surviving ones of its instance |
| Lifecycle.Registry.OnStartup | radnr/radnr.go:90-120 | a start that cannot be made changes nothing; one that can leaves only loops of its instance |
| Lifecycle.Registry.OnShutdown | radnr/radnr.go:138-147 | stops the object's loop, safely also when it never ran |
| Lifecycle.Registry.Drive | radnr/radnr.go:66-83 | after any sequence of hooks the registry is exactly the uncancelled loops, of one instance, each running for one object |
| Lifecycle.Registry.StopAll | sni_tls/reload.go:57-73 | stopping the live instance's objects leaves nothing running |
| RaSchedule.NextInterval | radnr/internal/advertiser/advertiser.go:133-141 | the draw lies between the minimum and maximum interval |
| RaSchedule.Timer.Fired | radnr/internal/advertiser/advertiser.go:217-224 | send and re-arm, or wait out the window |
| RaSchedule.Timer.Solicited | radnr/internal/advertiser/advertiser.go:237-246 | the timer moves in to the section 6.2.6 time if that is earlier |
| RaSchedule.RunLoop | radnr/internal/advertiser/advertiser.go:291-313 | the loop sends what the run of the specification sends |
| RaSchedule.RateLimitHolds | radnr/internal/advertiser/advertiser.go:254-259 | consecutive advertisements are at least 3 s apart over every run, timers early or late |
| RaSchedule.NeverDefers | radnr/internal/advertiser/advertiser.go:213-224 | with an interval of at least 3 s the deferral branch is never taken |
| RaSchedule.DeferralIsDeadIff | radnr/internal/advertiser/advertiser.go:213-224 | that holds if and only if the interval is at least 3 s |
| RaSchedule.UnsolicitedSpacing | radnr/internal/advertiser/advertiser.go:126-141 | an advertisement no solicitation moved in comes at least the minimum interval after the previous one |
| RaSchedule.DeadlineKept | radnr/internal/advertiser/advertiser.go:226-246 | a promised deadline survives every further event |
| RaSchedule.SolicitationAnswered | radnr/internal/advertiser/advertiser.go:226-246 | every solicitation is answered by its random delay after it, or after 3 s from the last advertisement if that is later |
| RaSchedule.AdvertisesExactlyWhenDue | radnr/internal/advertiser/advertiser.go:217-246 | after any burst of solicitations the next advertisement goes out exactly at the earliest of their section 6.2.6 times and the time already set |
| RaSchedule.SilenceIsBounded | radnr/internal/advertiser/advertiser.go:213-224 | consecutive advertisements are at most the maximum interval apart when timers are on time |
| RaSchedule.LeastDrawMeaning | radnr/internal/advertiser/advertiser.go:133-141 | the least interval: a third of the maximum, floored at 3 s |
| RaSchedule.ThirtySecondLoopSpeaks | radnr/setup.go:15-16 | the shipped loop advertises at least every 30 s |
| RaSchedule.ReachableIsPunctual | radnr/internal/advertiser/advertiser.go:297-313 | every reachable state is one the deadline lemmas start from |
| RaSchedule.ThirtySecondLoop | radnr/setup.go:15-16 | the shipped loop: 3 s apart, 10 s when unsolicited, no deferral |
| DomainName.ParseDomainName | radnr/pkg/dnr/dnr.go:62-81 | accepts exactly names without empty or long labels, after one trailing dot |
| DomainName.NameLimits | radnr/pkg/dnr/dnr.go:62-81 | a name is at most 253 octets, in labels of 1 to 63 |
| DomainName.NameIsTrimmed | radnr/pkg/dnr/dnr.go:53-58 | a parsed name parses to itself |
| DomainName.EncodeWire | radnr/pkg/dnr/dnr.go:110-117 | the loop writes the length-prefixed labels and the root |
| DomainName.WireLength | radnr/pkg/dnr/dnr.go:67-71 | two octets more than the dotted form |
| DomainName.WireLayout | radnr/pkg/dnr/dnr.go:110-117 | octet by octet: each label behind its length, the root label last |
| DomainName.DecodeName | radnr/pkg/dnr/dnr.go:316-343 | the loop is the label-by-label decoder |
| DomainName.NameRoundTrip | radnr/pkg/dnr/dnr.go:314-343 | decoding undoes encoding, whatever follows the root label |
| DomainName.DecodedIsPrefix | radnr/pkg/dnr/dnr.go:194-206 | a decoded name's wire form is a prefix of its field |
| Dnr.Validate | radnr/pkg/dnr/dnr.go:141-163 | decides validity of an option |
| Dnr.Marshal | radnr/pkg/dnr/dnr.go:167-192 | the appends fit the zeroed allocation and yield the specified octets; refuses exactly the invalid options |
| Dnr.EncodeShape | radnr/pkg/dnr/dnr.go:128-134 | 8-octet aligned, Length octet right, zero padding |
| Dnr.EncodeLayout | radnr/pkg/dnr/dnr.go:167-192 | section 6.1 octet by octet: type 144, length, and each field at its place, numbers big-endian |
| Dnr.ValidMeaning | radnr/pkg/dnr/dnr.go:141-163 | encodable exactly with a name, native zoneless addresses and at most 2040 octets |
| Dnr.ParseAddrs | radnr/pkg/dnr/dnr.go:211-225 | sixteen octets per address |
| Dnr.UnmarshalFields | radnr/pkg/dnr/dnr.go:281-306 | the nested length prefixes are walked as specified |
| Dnr.Unmarshal | radnr/pkg/dnr/dnr.go:256-312 | the decoder is the specified one |
| Dnr.OptionRoundTrip | radnr/pkg/dnr/dnr.go:165-192 | every valid option decodes back to itself, also from a longer buffer |
| Dnr.AdnIsSpelledInField | radnr/pkg/dnr/dnr.go:281-288 | the decoded name is spelled at the start of its field |
| Dnr.ParsedSize | radnr/pkg/dnr/dnr.go:239-253 | a parsed option fits the octets its Length field delimits |
| Dnr.FinalCheckOnlySeesMapped | radnr/pkg/dnr/dnr.go:307-310 | the final check rejects if and only if an address is IPv4-mapped |
| Dnr.AcceptedReencodes | radnr/pkg/dnr/dnr.go:255-312 | whatever is accepted re-encodes to at most its length and decodes to the same option |
| Dnr.AcceptsExactly | radnr/pkg/dnr/dnr.go:256-312 | the decoder accepts exactly the buffers laid out as section 6.1 has it, with no IPv4-mapped address, and gives what they spell |
| Observations.Configure | probe/observe.go:542-559 | every limit is positive |
| Observations.Defaults | probe/observe.go:542-559 | ten minutes, 10 000 tokens and 64 observations each unless configured |
| Observations.SweptMeaning | probe/observe.go:663-681 | a sweep takes exactly the rows first seen more than the TTL ago |
| Observations.FullMeaning | probe/observe.go:573-585 | refused if and only if the token has no live row and the live rows are at the ceiling |
| Observations.RecordedMeaning | probe/observe.go:562-595 | what one call leaves in every row, and its answer, spelled out |
| Observations.RecordRefinesLog | probe/observe.go:562-595 | one call does what the unbounded log does, cut to the first MaxPerToken; the k-th call answers min(k, MaxPerToken + 1) |
| Observations.StoreRefinesLog | probe/observe.go:562-610 | the same over every run of Record and Lookup, timestamps in any order: what is retained and every count answered |
| Observations.SeenIsTruthfulIff | probe/observe.go:587-595 | the count answered is the true position if and only if that is at most MaxPerToken + 1 |
| Observations.EveryRunStaysWithin | probe/observe.go:459-467 | at most MaxTokens rows of at most MaxPerToken observations after every run |
| Observations.EveryRunFromEmpty | probe/observe.go:542-595 | a new store after any run of calls: refinement, answers and ceilings together |
| Observations.NothingLeavesEarly | probe/observe.go:663-681 | in one call, a row leaves exactly by age and loses nothing before |
| Observations.LivesUntilExpiry | probe/observe.go:663-681 | over any run none of whose calls comes past its expiry, a row keeps its first-seen time and only grows |
| MemStore.PrefixIsTheExpired | probe/observe.go:508-525 | in a sorted queue the expired prefix is everything that has expired |
| MemStore.DropFront | probe/observe.go:508-525 | dropping a prefix keeps queue and map in bijection |
| MemStore.InsertedIsSorted | probe/observe.go:495-506 | an insertion at the searched place keeps the queue sorted and duplicate-free |
| MemStore.Shelf.FirstLater | probe/observe.go:499-506 | the binary search finds the first later entry |
| MemStore.Shelf.Place | probe/observe.go:499-506 | where a new entry belongs, also with timestamps out of order |
| MemStore.Shelf.Add | probe/observe.go:573-585 | opens a row and queues it in step |
| MemStore.Shelf.DropExpired | probe/observe.go:670-681 | the guard on the dropped entry never fails |
| MemStore.Shelf.Expire | probe/observe.go:511-525 | popping the front removes exactly what a full sweep by age would |
| MemStore.Shelf.Find | probe/observe.go:573-585 | the token's entry, or a refusal exactly at the ceiling |
| MemStore.Shelf.Keep | probe/observe.go:587-595 | retains one more while there is room |
| MemStore.Shelf.Record | probe/observe.go:573-595 | one call on a swept shelf |
| MemStore.MemStore.constructor | probe/observe.go:542-559 | an empty store with its limits |
| MemStore.FirstSighting | probe/observe.go:573-595 | the first observation in an empty store is kept and answered 1 |
| MemStore.MemStore.Expire | probe/observe.go:670-681 | both shelves are swept |
| MemStore.MemStore.Record | probe/observe.go:562-595 | rows, sighting count and refusal are those of the specification; in an empty store the observation is kept alone and answered 1 |
| MemStore.MemStore.Lookup | probe/observe.go:598-610 | returns what is retained after the sweep |
| MemStore.MemStore.RecordReport | probe/observe.go:613-646 | reports likewise, with the larger limit for unattributed ones |
| MemStore.MemStore.ServeAll | probe/observe.go:562-646 | any sequence of sightings, queries and reports comes to the run of the specification, contents and answers |
| Cookie.HashInputInjective | cookie/cookie.go:64-77 | the hashed octets determine every part |
| Cookie.CookieLayout | cookie/cookie.go:64-98 | RFC 9018 octet by octet: what is hashed, and the server cookie |
| Cookie.AddrBytesMeaning | cookie/cookie.go:79-83 | IPv4-mapped addresses count as IPv4, others as they are |
| Cookie.VerifiesExactly | cookie/cookie.go:108-129 | exactly the cookies that verify: version 1, any reserved octets, a stamp in the window, and the right hash |
| Cookie.WindowAcrossWrap | cookie/cookie.go:98-106 | the 32-bit test means one hour back and five minutes ahead, across any wrap |
| Cookie.MintVerifies | cookie/cookie.go:85-129 | a minted cookie verifies exactly inside the window |
| Cookie.MintBinds | cookie/cookie.go:108-129 | for another secret, client or address it verifies only through a hash collision |
| Cookie.CheckSecrets | cookie/cookie.go:139-149 | the loop finds the generating or a verify-only secret |
| Cookie.HolderAccepts | cookie/cookie.go:137-149 | a holder of the minting secret accepts within the window |
| Cookie.RetryIsServed | cookie/handler.go:174-200 | the cookie from a refusal gets the retry served, whatever other options come with it, by any server holding the secret |
| Cookie.RefusedExactly | cookie/handler.go:152-187 | a request is refused exactly over UDP in enforce mode when its first cookie has an acceptable length and no held secret vouches for it |
| Cookie.AnswerByLength | cookie/handler.go:74-108 | the answer for each length of the first cookie |
| Cookie.FirstCookieMeaning | cookie/handler.go:76-86 | only the first cookie option counts |
| Cookie.FreshIsCurrent | cookie/handler.go:194-200 | the cookie handed out is one the server takes back as current |
| Cookie.WriteOptions | cookie/handler.go:214-229 | drops every cookie option and appends ours |
| Cookie.ExactlyOneCookie | cookie/handler.go:210-229 | the answer carries one cookie, ours, and keeps all other options |
| Rollout.StepKeeps | cookie/cookie.go:131-149 | each tick, issue, reload and new rollout keeps the invariant |
| Rollout.RunKeeps | cookie/cookie.go:131-149 | the same over every run |
| Rollout.AcceptedInState | cookie/cookie.go:98-149 | under the invariant, with clocks at most d apart, every cookie at most an hour less d old is accepted by every server |
| Rollout.EveryServerAccepts | cookie/handler.go:189-200 | any servers, clocks at most d apart, any interleaving, any number of rollouts in section 5's order: every cookie at most an hour less d old is accepted everywhere, if wait and d make up the hour |
| Rollout.OneClockAccepts | cookie/handler.go:189-200 | one clock and a wait of over an hour: every cookie at most an hour old is accepted everywhere |
| Rollout.IssuedUnderOwnSecret | cookie/handler.go:194-200 | the cookie a server hands out is the one its own configuration generates |
| Rollout.AcceptedIff | cookie/cookie.go:139-149 | whatever secrets a server holds, it accepts a cookie if and only if its clock is in the window and a held secret hashes alike |
| Rollout.StrangerRefuses | cookie/cookie.go:115-129 | a server none of whose secrets is the cookie's refuses it, short of a collision |
| Rollout.ShorterWaitIsTooShort | cookie/cookie.go:103-106 | for any shorter wait, a run in section 5's order that ends with such a cookie refused |
| Rollout.SkewEatsTheHour | cookie/cookie.go:103-106 | a cookie one second older, checked by a clock d ahead, is refused |
| Sni.UsableNames | sni_tls/sni_tls.go:264-269 | the folded valid SANs |
| Sni.LoadCert | sni_tls/sni_tls.go:252-275 | a certificate without a usable name is broken |
| Sni.File | sni_tls/sni_tls.go:319-324 | both indexes after filing one certificate |
| Sni.LoadPairs | sni_tls/sni_tls.go:306-325 | last pair wins per name, first loaded is the fallback, broken is fatal |
| Sni.BuildCertStore | sni_tls/sni_tls.go:297-332 | when the build fails, and what both indexes hold when it does not |
| Sni.SuffixIndexAgrees | sni_tls/sni_tls.go:129-147 | the suffix index answers every name like the constructed wildcard key |
| Sni.ValidMeansPresentable | sni_tls/sni_tls.go:217-226 | a presented name has no star, or one star as its whole first label before a non-empty rest |
| Sni.FatalMeaning | sni_tls/sni_tls.go:252-275 | a pair is fatal when broken or without one presentable name |
| Sni.WildcardOfMeaning | sni_tls/sni_tls.go:228-245 | the wildcard form replaces exactly one non-empty first label |
| Sni.StrictServesOnlyMatches | sni_tls/sni_tls.go:97-127 | strict mode refuses exactly the names no loaded certificate carries, and serves one that does, exact before wildcard |
| Sni.ServesTheMatch | sni_tls/sni_tls.go:97-127 | in either mode: the last loaded certificate that presents the name, else the last with a wildcard for it, else nothing in strict mode and the fallback otherwise |
| Sni.AbsentSniGets | sni_tls/sni_tls.go:97-127 | what a handshake without a name gets in each of the four settings |
| Modifiers.ClashMeaning | probe/labels.go:162-199 | the lowest-bit test finds two modifiers of one exclusive group |
| Modifiers.BitsDetermine | probe/labels.go:115-116 | a set of defined modifiers is determined by its members |
| Modifiers.BitOfName | probe/labels.go:42-113 | the bit each modifier name stands for |
| ProbeQuery.ParseTokenLabel | probe/labels.go:323-338 | bounded hex, folded |
| ProbeQuery.LookupModifierLabel | probe/labels.go:303-317 | the buffered fold looks up the folded name |
| ProbeQuery.ParseQueryName | probe/labels.go:239-293 | the cutting loop is the specified parser |
| ProbeQuery.Render | probe/labels.go:219-228 | writes the canonical spelling |
| ProbeQuery.AnySpellingParses | probe/labels.go:230-293 | every order of modifier labels and every mixture of case parses to the query |
| ProbeQuery.SubRoundTrip | probe/labels.go:216-228 | parsing undoes rendering on valid queries |
| ProbeQuery.ValidIffParsable | probe/labels.go:201-214 | a query validates if and only if some name parses to it |
| ProbeQuery.ParsesExactly | probe/labels.go:230-338 | a name parses to a query if and only if it spells it: each modifier once, in any order and case, then 8 to 32 hex digits; one empty label before the token and a final dot are let pass |
| ProbeQuery.LabelsEqualFoldLoop | probe/dnssd.go:113-128 | the consuming loop compares label by label |
| ProbeQuery.GrammarsAreDisjoint | probe/dnssd.go:85-109 | no name is accepted by two of the query, DNS-SD and key tag grammars |

## Left out

- Sockets, NDP and TLS handshakes, X.509 parsing, QUIC alerts, TSIG verification, NOTIFY and zone transfer: foreign library behaviour, present only as parameters.
- How much Go's append enlarges an array, and the nil references in unused capacity: a grown array has some larger length, and elements past a slice's length are never read. The sections of a message, which nothing writes, are sequences of record references.
- Names.SameNameExact: the lower-casing of bytes above 127 is the ASCII fold on both sides, because Unicode case folding is not modelled.
- Rendering of records as text: a record's identity is its canonical owner, type and RDATA, taken as what the rendering distinguishes.
- Sni.LoadPairs: the certificates of a pair are what a load returned; reading and parsing the files is not modelled.
- The order in which a skipped pair leaves its key file unread: the reload model reads every file of a snapshot.
- Time arithmetic saturating near 292 years in the observation store: times are integers.
- Hexadecimal decoding of the cookie option: cookies are octets.
- SipHash itself, DNSSEC signing, ECH configuration, service parameters, zone version, extended errors, error-report parsing, and formatting of key tags: library cryptography or easier relatives of the codecs and parsers modelled here.
- Corefile parsing, metrics, logging, the Valkey store and the CI program: plumbing.
