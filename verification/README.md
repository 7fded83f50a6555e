# Verified models of the DynApp Shell agent

These Dafny modules model the parts of the agent where loops, maps, interleavings and byte formats
decide correctness, and prove what the agent relies on there. `dafny verify dfyconfig.toml` checks
everything.

| modules | what they model |
|---|---|
| Datagrams, Reassembly, ReassemblyRuns | UDP bridge packets cut into 1000-byte `DGD1` frames, and the receiver's table of partial messages, over every run of a network that loses, repeats and reorders |
| BridgeUpdates | counted bridge sets, the atomic counter and the update reservation, as interleaved lock regions |
| Grants, GrantLists, GrantRuns, GrantOrigins, GrantEffects, GrantPairing, GrantSockets, GrantServer, IdentitySync, PermissionLists | the permission grant store: pairing, pre-approval, update, revoke, review, install, sync; and the sockets whose snapshot is checked at every frame |
| IceTrickler, IceSessions | the ICE candidate trickler and the session workers with their generations, as interleaved lock regions |
| SourcePack | the `DYNPACK1` source pack: two writers, one reader |
| NativeFrames | the native host's length-prefixed stream |
| WindowsQuoting | one Windows command line from an argument list, against the documented parsing rules |
| ConnectPrefix, Texts | the path tests of an HTTP connect list, against prefixes of path segments |
| ExecEnvironment | the environment list with its index and swap-delete |
| OutputBudget | the output limit that stdout and stderr share |
| Shortcuts, ShortcutSpelling, ShortcutNames | accelerator parsing and the global shortcut registry |
| ReplaceExecutable | installing a new executable with backup and rollback |
| Bytes, Options | helpers |

How the models are built. What a Go method computes is a function; the method itself, with its loops
and field updates, is a Dafny method proved equal to that function, and its contract also says what that
comes to on the inputs and the result, without the function; the promises are lemmas over all inputs or
all runs. Concurrent code is a step relation whose steps are the lock
regions and atomic operations of the source, and results hold for every interleaving. Choices the
code does not control (map iteration order, which file operation fails, whether the operating system
takes a shortcut, user decisions, clocks, manifests) are parameters, so results hold for all of them.

Where a promise turned out not to hold as stated, the model follows the code, proves when it holds, and
has a lemma at an input where it does not:

- A source pack whose announced size wraps `offset + size` past 2^64 passes the length test and then
  crosses the bounds of a slice (`SourcePack.PanicsExactly`, `SourcePack.WrappedSizePanics`).
- A snapshot with two files of equal content is written as a pack that the reader refuses: digests must
  differ (`SourcePack.EncodeRoundTrip`, `SourcePack.EqualFilesAreRefused`).
- The quoting is inverted by the argument rules for every list of valid texts; a byte that belongs to no
  rune survives only in an argument that needs no quotes (`WindowsQuoting.QuotingRoundTrip`). The program
  name is read by another rule (`WindowsQuoting.CommandLineRoundTrip`, `WindowsQuoting.ProgramNameDoubles`).
- The environment as a list, its order aside, is overridden as asked in every iteration order exactly when
  no requested name comes twice or without `=` in the inherited list (`ExecEnvironment.OverriddenExactly`,
  `ExecEnvironment.SomeOrderFails`). What a started process sees, the last entry of a name, is as asked when
  names come once or nothing is removed (`ExecEnvironment.SeenWhenUnique`,
  `ExecEnvironment.SeenWithoutRemovals`); one removal changes what is seen of another name exactly when
  the entry that takes the removed place passes a different one of that name
  (`ExecEnvironment.DropSeenExactly`, `ExecEnvironment.RemovalReordersDuplicates`).
- A replacement whose source has the backup's name reports success and leaves the old executable: the
  second success clause of `ReplaceExecutable.ReplaceExecutable` says so. No caller passes that name.
- Registering a shortcut keeps the registry a bijection exactly when the next id is not one still in use
  (`Shortcuts.RegisterKeepsInvExactly`): always within 2^32 attempts (`Shortcuts.RegistryInvariant`), and
  not always with one more (`Shortcuts.OneAttemptMore`, `ShortcutSpelling.IdReuseHappens`).
- A stop misses exactly the live workers whose context was created between its two lock regions
  (`IceSessions.StopMissesExactly`, `IceSessions.EnabledStopCanMissWorker`); with the relay off nothing is
  missed (`IceSessions.DisablingCancelsWorkers`).
- After a browser grant is revoked, frames in flight on the sockets bound to it pass exactly when another
  record of the key and origin still grants the same set: an old one without an app id, or the app's own
  (`GrantRuns.RevokedBrowserPassesExactly`, `GrantRuns.OldRecordOutlivesRevoke`).

A merge of invalid identity records would keep duplicate keys (`IdentitySync.SyncUniqueExactly`,
`IdentitySync.SyncCanKeepDuplicates`). That branch is defensive: every list the agent merges has been
validated before.

## Model

| member | source | states |
|---|---|---|
| Datagrams.Sender.Encode | shellagent/network_bridge.go:351-377 | one packet becomes exactly its frames, none unless its id has 1 to 985 bytes and its body at most 65535; the message counter moves by one modulo 2^32, and only when frames are produced |
| Datagrams.FramesFrom | shellagent/network_bridge.go:362-376 | the loop over fragments emits every frame of the message in order |
| Datagrams.BuildFrame | shellagent/network_bridge.go:366-373 | the bytes written into the frame buffer are the frame format |
| Datagrams.DecodeOfFrame | shellagent/network_bridge.go:386-403 | every well-formed fragment survives encoding and decoding |
| Datagrams.FrameOfDecode | shellagent/network_bridge.go:386-403 | the decoder accepts exactly the encodings of well-formed fragments, each frame being the only encoding of what it decodes to |
| Datagrams.FramesDecode | shellagent/network_bridge.go:351-403 | encoder (65535 fragments) and decoder (128) together: all frames of a message decode, or none does |
| Datagrams.Parts | shellagent/network_bridge.go:357-373 | cutting a body loses nothing, no piece is larger than the space, and no piece of a multi-fragment body is empty |
| Datagrams.PartsCount | shellagent/network_bridge.go:357-373 | cutting a body gives the rounded-up number of pieces |
| Datagrams.PartAt | shellagent/network_bridge.go:363-373 | the k-th piece is the k-th slice of the body |
| Datagrams.CountFits | shellagent/network_bridge.go:357-360 | the encoder's guard on 65535 fragments never fires |
| Datagrams.ReassemblyBound | shellagent/network_bridge.go:351-395 | a message is decodable exactly when its body fits 128 fragments; all bodies up to 65535 bytes do exactly for ids of 1 to 474 bytes |
| Datagrams.SentNumbers | shellagent/network_bridge.go:351-377 | successive encodable packets of one sender are numbered on from its counter, modulo 2^32 |
| Datagrams.MessageIdsRepeat | shellagent/network_bridge.go:361 | two messages of one sender share a message id exactly when a multiple of 2^32 messages lies between them |
| Reassembly.KeyInjective | shellagent/network_bridge.go:424 | the text key of the table names one bridge id and one message id, even for ids with colons and digits |
| Reassembly.DecimalRoundTrip | shellagent/network_bridge.go:424 | the decimal part of the key determines the message id |
| Reassembly.Receiver.Expire | shellagent/network_bridge.go:418-423 | the sweep removes exactly the entries older than 2000 ms |
| Reassembly.Receiver.FindOldest | shellagent/network_bridge.go:427-435 | the eviction loop finds an entry that nothing else is older than, whatever order the map is walked in |
| Reassembly.Receiver.ScanParts | shellagent/network_bridge.go:442-453 | the scan stops at the first gap or overflow, whichever comes first |
| Reassembly.Receiver.Join | shellagent/network_bridge.go:454-457 | a complete set of fragments is joined in order |
| Reassembly.Receiver.Receive | shellagent/network_bridge.go:410-459 | a fragment of a longer message leaves every other entry at most 2000 ms old as it was and drops the older ones, but evicts an oldest of 256 for a new entry; its own entry has its old fragments only if it was that young; complete and at most 65535 bytes it is delivered and goes, larger it goes, else it stays; all other frames leave the table alone |
| Reassembly.ScanMeans | shellagent/network_bridge.go:442-453 | the scan overflows exactly when the slots before the first gap exceed 65535 bytes, and completes exactly when there is no gap and all fit |
| ReassemblyRuns.SoundStep | shellagent/network_bridge.go:410-459 | one event keeps every table entry faithful to one sent message and delivers only what was sent |
| ReassemblyRuns.FaithfulRun | shellagent/network_bridge.go:410-459 | every table of every run holds only fragments of sent messages and at most 256 entries |
| ReassemblyRuns.ReassemblySound | shellagent/network_bridge.go:410-459 | under any loss, reordering, duplication, interleaving, expiry and eviction, each delivery is a message that was sent and the table never exceeds 256 entries |
| ReassemblyRuns.SenderIsDistinct | shellagent/network_bridge.go:351-377 | at most 2^32 messages of one sender are told apart, which is what soundness asks of the messages sent |
| ReassemblyRuns.SenderSound | shellagent/network_bridge.go:351-459 | soundness for the frames of one sender, from its packets alone |
| ReassemblyRuns.OwnStep | shellagent/network_bridge.go:424-459 | one more fragment of a message is collected, or completes and delivers it |
| ReassemblyRuns.CollectedBefore | shellagent/network_bridge.go:410-459 | until the last missing fragment arrives the entry holds exactly the fragments seen so far |
| ReassemblyRuns.ReassemblyComplete | shellagent/network_bridge.go:351-459 | all fragments in any order, at most two seconds apart, not evicted: the message is delivered at its last missing fragment, not before, and its entry is gone |
| ReassemblyRuns.CompleteWithRoom | shellagent/network_bridge.go:351-459 | the same for ids of 1 to 474 bytes, all bodies up to 65535 bytes and fewer than 256 other partial messages |
| ReassemblyRuns.SingleComplete | shellagent/network_bridge.go:415-417 | a one-fragment message is delivered at once and never enters the table |
| ReassemblyRuns.OpenedSize | shellagent/network_bridge.go:425-439 | opening an entry keeps the table within 256 entries |
| ReassemblyRuns.LateFragmentStartsOver | shellagent/network_bridge.go:418-459 | over runs: two frames of a message of several fragments more than 2000 ms apart, with none of it between, deliver nothing at the second, whose entry then holds that fragment alone |
| BridgeUpdates.StepKeepsInv | shellagent/network_bridge.go:45-117 | every step of every goroutine and of the updater keeps the counter invariant with its in-flight terms |
| BridgeUpdates.CounterExact | shellagent/network_bridge.go:45-117 | in every interleaving the atomic counter is the records, less puts and plus removals in flight; with nothing in flight it is the number of records |
| BridgeUpdates.IdleUpdateSafe | shellagent/agent.go:493-520 | when tryBeginUpdate(false) returns true every counted set is empty and no open is in progress, and none gains a record until cancelUpdate, over all interleavings |
| BridgeUpdates.HeldUntilCancel | shellagent/agent.go:493-520 | the reservation, once taken, stands through every step but its cancel |
| BridgeUpdates.FailureReleases | shellagent/updater.go:210-235 | the pending flag lasts exactly as long as the updater has a reservation, and every failing path can release it so that opens get the lock again |
| BridgeUpdates.ForcedUpdateIsNotIdle | shellagent/agent.go:506-514 | a forced reservation can be taken while bridges are counted |
| BridgeUpdates.ThreadMoves | shellagent/network_bridge.go:126-153 | how one goroutine step moves the accounts and the locks |
| BridgeUpdates.RecordsMove | shellagent/network_bridge.go:45-117 | record by record: a take, a failed reply and a closing take out exactly what they name, a put puts in one new bridge; the count moves by one or by all that a closing emptied; only a reservation and a cancel move the flag |
| BridgeUpdates.ThreadGoes | shellagent/network_bridge.go:45-153 | where each step leaves its goroutine: a removal is owed exactly when something was removed, a refused, failed or answered open is over, and no other goroutine moves |
| BridgeUpdates.UpdaterGoes | shellagent/updater.go:210-235 | where each step leaves the updater; no goroutine moves |
| BridgeUpdates.StaysUntilRemoved | shellagent/network_bridge.go:45-117 | over every run a bridge is in its set until a step takes it out, and never after |
| BridgeUpdates.BridgeSet.Put | shellagent/network_bridge.go:45-53 | put stores the connection and counts one |
| BridgeUpdates.BridgeSet.Take | shellagent/network_bridge.go:89-101 | take removes and uncounts a record exactly when it is there |
| BridgeUpdates.BridgeSet.CloseAll | shellagent/network_bridge.go:102-117 | closeAll empties the set, hands on each connection, and takes the whole count off at once |
| GrantLists.UpsertedLaws | shellagent/browser_identity.go:388-406 | saving a record puts it in, leaves every other record as it was, and keeps keys unique |
| GrantLists.UpsertedNativeLaws | shellagent/native_apps.go:148-169 | the same for native apps |
| GrantLists.WithoutLaws | shellagent/permissions.go:515-548 | removing by names removes exactly the named record |
| GrantLists.WithoutNativeLaws | shellagent/native_apps.go:171-186 | removing a native app removes exactly that app |
| GrantLists.FindLaws | shellagent/permissions.go:441-450 | a lookup finds the record with the names exactly when there is one |
| GrantLists.FindNativeLaws | shellagent/native_apps.go:137-146 | a native lookup finds the app exactly when there is one |
| GrantRuns.BestGrantIsSaved | shellagent/browser_identity.go:329-356 | the grant found for an app is one of the saved records and matches the app or origin |
| GrantRuns.ReconnectStep | shellagent/browser_identity.go:123-175 | continuing a paired identity keeps the store invariant and opens a socket within its grant |
| GrantRuns.PairAppStep | shellagent/browser_identity.go:177-259 | pairing an unknown identity keeps the store invariant, whatever is inherited, pre-approved or decided |
| GrantRuns.PairAuthorityStep | shellagent/browser_identity.go:265-284 | pairing as the authority keeps the store invariant |
| GrantRuns.UpdateIdentityStep | shellagent/permissions.go:469-513 | an update stays within what the app declares and cannot hand out permissions.manage |
| GrantRuns.SyncStep | shellagent/browser_identity.go:410-423 | a sync of records that respect the invariant keeps it |
| GrantRuns.ConnectStep | shellagent/native_host.go:303-353 | authorizing a native app keeps the store invariant and opens a socket within its grant |
| GrantRuns.CatalogStep | shellagent/native_platform_host.go:170-196 | recording the catalog app keeps the store invariant |
| GrantRuns.StepKeepsInv | shellagent/native_apps.go:457-546 | each of the store operations, on either kind of grant, keeps the invariant |
| GrantRuns.StoreInvariant | shellagent/browser_identity.go:123-284 | over every run: keys unique, approved browser grants and ordinary native grants within their declared permissions, permissions.manage held exactly by authority records |
| GrantRuns.FrameAuthority | shellagent/agent.go:664-667 | over every run, for every socket ever opened, also one already told to close: a frame that passes the per-frame check has capabilities contained in a grant in force at that frame for the same key, origin and app |
| GrantRuns.RevokedNativeIsEmpty | shellagent/native_apps.go:531-546 | right after a native revoke a frame that still passes the check, of any socket ever opened for the app, carries nothing beyond an authority's permissions.manage |
| GrantRuns.RevokedBrowserPassesExactly | shellagent/permissions.go:515-548 | after a browser revoke a frame of a socket bound to the grant passes exactly when another record of the same key and origin grants the same set: an old record without an app id, or the app's own if the old one was revoked |
| GrantRuns.OldRecordOutlivesRevoke | shellagent/browser_identity.go:425-437 | a run that gets there: an old record reconnects under an equal pre-approval, and its frames pass after either record is revoked |
| GrantOrigins.StepSource | shellagent/browser_identity.go:123-284 | one operation leaves an ordinary app only permissions it had or was given by that operation |
| GrantOrigins.PermissionsAreDecided | shellagent/permissions.go:338-513 | over every run, a permission an ordinary app ends with was there at the start or given to it by an explicit decision |
| IdentitySync.LocallyApprovedLaws | shellagent/browser_identity.go:410-416 | the kept part of the list is exactly its locally approved records |
| IdentitySync.FirstOfEachLaws | shellagent/browser_identity.go:465-481 | normalizing leaves unique keys, only records of the list, and a record of every key |
| IdentitySync.FirstOfEachKeepsFirst | shellagent/browser_identity.go:465-481 | normalizing keeps exactly the records that are the first of their key |
| IdentitySync.SyncLaws | shellagent/browser_identity.go:410-423 | a sync keeps every locally approved grant, lets local win on equal keys, drops stale synced records, takes in every other fresh key, and leaves keys unique |
| IdentitySync.SyncIdempotent | shellagent/browser_identity.go:410-423 | syncing the same fresh list again changes nothing |
| IdentitySync.SyncUniqueExactly | shellagent/browser_identity.go:418-422 | without validity, keys come out unique exactly when all records are valid or the two lists had no key in common |
| IdentitySync.SyncCanKeepDuplicates | shellagent/browser_identity.go:418-422 | two records of one key, one invalid, are both kept |
| GrantServer.Server.FindIdentity | shellagent/permissions.go:441-450 | the search loop finds the first record with the key, origin and app, or there is none |
| GrantServer.Server.UpsertBrowserIdentity | shellagent/browser_identity.go:388-406 | the record takes the place of every record of its key, origin and app, or goes to the end; the others stay where they are |
| GrantServer.Server.HasBrowserIdentity | shellagent/browser_identity.go:425-437 | a native frame passes exactly when some stored app has its id, its origin and exactly the set it was opened with; a browser frame exactly when some record has its key and origin, its app id or none, and that set |
| GrantServer.Server.FindApprovedAppGrant | shellagent/browser_identity.go:329-356 | the most recently approved grant of the app, the first of equals; without one the same among old grants of the origin; nothing exactly when there is neither |
| GrantServer.Server.NormalizeIdentities | shellagent/browser_identity.go:465-481 | an invalid record refuses the list; otherwise the first of each key stays |
| GrantServer.Server.MergeSyncedIdentities | shellagent/browser_identity.go:410-423 | the merge is the specified one, with the fallback to the unnormalized list |
| GrantServer.Server.SyncIdentities | shellagent/agent.go:382-403 | a sync replaces the browser list with the merge, whatever was synced, and keeps the invariant when the synced records respect it |
| GrantServer.Server.PreapprovePermissions | shellagent/permissions.go:338-365 | a pre-approval holds what was asked without permissions.manage, for the time asked, ten minutes if none and an hour at most; nothing else changes; the invariant is kept |
| GrantServer.Server.ConsumePreApproval | shellagent/permissions.go:368-381 | a pre-approval is used at most once and only while it lives; no other is touched |
| GrantServer.Server.ContinuePairedIdentity | shellagent/browser_identity.go:123-175 | a live pre-approval replaces an app's grant by what it and the manifest share; without one only the declared set grows; an authority takes on the catalog's permissions as soon as one is missing; the socket holds the grant cut to the manifest; other records stay |
| GrantServer.Server.PairUnknownIdentity | shellagent/browser_identity.go:177-259 | a live pre-approval decides, else a reusable grant, else automatic approval, else the authority's answer, else nothing is stored; what is granted is what was chosen and is declared, never permissions.manage; the socket holds just that |
| GrantServer.Server.RecordAuthorityIdentity | shellagent/browser_identity.go:265-284 | the authority's record and socket hold and declare exactly the catalog's permissions and permissions.manage |
| GrantServer.Server.FindNativeApp | shellagent/native_apps.go:137-146 | the search loop finds the first app with the id, or there is none |
| GrantServer.Server.UpsertNativeApp | shellagent/native_apps.go:148-169 | the app takes the place of every record of its id, or goes to the end; one that does not validate is not stored |
| GrantServer.Server.RemoveNativeApp | shellagent/native_apps.go:171-186 | the filter removes exactly that app |
| GrantServer.Server.CloseSocketsBoundTo | shellagent/permissions.go:217-230 | exactly the sockets with the key, the origin and, unless it is empty, the app are closed |
| GrantServer.Server.UpdateGrant | shellagent/permissions.go:469-513 | if the named record exists, the stored one has exactly the requested permissions that it or the manifest declares, all requested if nothing is declared, and permissions.manage exactly for an authority; the approval time is kept or set, other records stay, its sockets and no others are closed; else nothing changes |
| GrantServer.Server.UpdateNativeGrant | shellagent/native_apps.go:504-527 | the native update, likewise |
| GrantServer.Server.RevokeGrant | shellagent/permissions.go:515-548 | a browser revoke removes the named record and closes its sockets; a native one keeps the app with nothing granted, declared or approved, permissions.manage of an authority apart |
| GrantServer.Server.InstallNativeApp | shellagent/native_apps.go:457-485 | installing grants what was requested of the manifest, the catalog all of it and permissions.manage; the first install time is kept; the sockets of the app are closed |
| GrantServer.Server.UninstallNativeApp | shellagent/native_apps.go:487-502 | uninstalling removes exactly that app and closes its sockets |
| GrantServer.Server.AuthorizeNativeApp | shellagent/native_host.go:303-353 | the user is asked about what the manifest declares beyond the last decision; a decision adds what was allowed of that, no decision changes nothing, a lost window opens no socket; the socket holds the grant cut to the manifest |
| GrantServer.Server.ReviewNativeApp | shellagent/native_host.go:550-618 | a review grants exactly what was answered of the declared permissions, an authority keeps permissions.manage; sockets close exactly when the granted set changes |
| GrantServer.Server.EnsureNativeCatalogApp | shellagent/native_platform_host.go:145-198 | the catalog's record is an authority that holds and declares its manifest's permissions, or those it held, and permissions.manage; it is stored exactly when origin, name, permissions or path differ from the record there was |
| GrantPairing.BestGrantMeans | shellagent/browser_identity.go:329-356 | the pass finds a grant exactly when one can be reused, and the one to reuse |
| GrantSockets.OpenedPasses | shellagent/browser_identity.go:425-437 | a frame of a socket passes the check right after the operation that opened it |
| GrantSockets.StepKeepsPassing | shellagent/browser_identity.go:425-437 | and still does after an operation that does not change, remove or replace its record: other keys' and apps' operations, a reconnect that takes no pre-approval, a connection without a decision, a sync over an approved record |
| GrantSockets.OpenSocketPasses | shellagent/agent.go:664-667 | over every run: the frames of a socket pass from the operation that opened it until one touches its record |
| PermissionLists.CanonicalUnique | shellagent/catalog/permission_catalog.go:63-77 | a sorted duplicate-free list is determined by its elements, so lists stand for sets |
| PermissionLists.AtMostMeans | shellagent/catalog/permission_catalog.go:63-77 | the order of the sorted lists is by the first character that differs, a beginning first |
| PermissionLists.Distinct | shellagent/catalog/permission_catalog.go:63-77 | duplicates and empty names are dropped, nothing else |
| PermissionLists.NormalizePermissionSet | shellagent/catalog/permission_catalog.go:63-77 | the sorted list of the trimmed non-empty permissions |
| PermissionLists.UnionStrings | shellagent/browser_identity.go:498-510 | the sorted union of two lists |
| PermissionLists.IntersectStrings | shellagent/browser_identity.go:512-524 | the common elements, each as often as in the left list; sorted when that is |
| PermissionLists.SameCapabilitySet | shellagent/agent.go:795-810 | true exactly when two lists have the same elements |
| IceTrickler.StepKeepsInv | shellagent/ice.go:63-117 | every lock region of add and drain keeps the trickler invariant |
| IceTrickler.GatheredIsAdded | shellagent/ice.go:63-86 | the gathered list is what the actions added: candidates in order up to and with the first null, or up to the first failed post |
| IceTrickler.FailedByAction | shellagent/ice.go:103-113 | the trickler has failed exactly when a post did |
| IceTrickler.TricklerCorrect | shellagent/ice.go:63-117 | in every interleaving: one drainer at most, posts strictly extend each other and begin the list the actions added, the end marker is last and unique, and with no drainer left and no failed post the last post is that whole list |
| IceTrickler.DrainsFromTop | shellagent/ice.go:88-117 | a drainer at the top of its loop posts the rest and stops |
| IceTrickler.DrainFinishes | shellagent/ice.go:88-117 | from any reachable state a running drainer left alone posts everything the actions added within four steps |
| IceSessions.StepKeepsExclusive | shellagent/ice.go:326-370 | every lock region of poll, worker and stop keeps slots and live workers in step |
| IceSessions.StepKeepsTracked | shellagent/agent.go:320-333 | no step loses a context that some stop must cancel |
| IceSessions.SessionsExclusive | shellagent/ice.go:340-368 | one live worker per session and generation, in the table exactly when it lives in the current generation, and an older worker's end frees no newer slot |
| IceSessions.SlotFreed | shellagent/ice.go:357-363 | a worker that ends frees its own slot exactly when its generation is the current one |
| IceSessions.PollStarts | shellagent/ice.go:340-368 | in every interleaving a poll starts a worker exactly when the session has none of the current generation, under the poll's context, and then it has one |
| IceSessions.PollContext | shellagent/ice.go:326-339 | a poll goes on only while the relay is on, under the current context or a new one that no worker has, never a cancelled or detached one |
| IceSessions.EndsMean | shellagent/agent.go:320-333 | what ends a poll, a worker and the three regions of a stop leave behind |
| IceSessions.DisablingCancelsWorkers | shellagent/agent.go:320-333 | once the relay is off and the stops have finished, every live worker and poll has a cancelled context |
| IceSessions.StopMissesExactly | shellagent/agent.go:320-333 | whatever other stops are under way, a stop misses exactly the live workers under the context that is current when it enters its second lock region: not cancelled, not about to be, and not in the table |
| IceSessions.StepKeepsNumbered | shellagent/ice.go:332-337 | the current context is never cancelled or in the hands of a stop |
| IceSessions.EnabledStopCanMissWorker | shellagent/agent.go:320-333 | a run in which that happens while the relay stays on |
| SourcePack.UnhexOfHex | shellagent/apphost/source_snapshot.go:199-200 | hexadecimal digests decode to the bytes they print |
| SourcePack.KeyInjective | shellagent/apphost/source_snapshot.go:208-211 | an object name determines its 32 bytes |
| SourcePack.HexAt | shellagent/apphost/source_snapshot.go:208-211 | two lower-case digits for each byte, the high one first |
| SourcePack.UnhexMeans | shellagent/apphost/source_snapshot.go:199-200 | a digest is decoded up to its first malformed pair |
| SourcePack.DecodeSourcePack | shellagent/apphost/source_snapshot.go:163-191 | the decoding loop computes the specified outcome, wrap-around of offset plus size included |
| SourcePack.EncodeSourcePack | shellagent/apphost/source_snapshot.go:193-206 | the snapshot writer emits the eight magic bytes, the count, and for each file its digest cut or padded to 32 bytes, its size in 64 bits and its blob |
| SourcePack.IndexByDigest | shellagent/apps_publish.go:286-292 | the index maps each digest to the last file that has it |
| SourcePack.UploadPublishSources | shellagent/apps_publish.go:286-317 | the publishing writer emits one section for every requested object when all are known and readable; else the first that is not decides between unknown and unreadable |
| SourcePack.WantedFails | shellagent/apps_publish.go:304-315 | the first requested object that is not indexed or cannot be read decides the failure |
| SourcePack.WritersAgree | shellagent/apps_publish.go:301-317 | for files whose size is still right both writers emit the same bytes |
| SourcePack.UploadRoundTrip | shellagent/apps_publish.go:286-317 | an upload of available files, read back, is accepted exactly when the requested names differ and match the contents, and then holds every requested blob and nothing else |
| SourcePack.DecodeOfRecords | shellagent/apphost/source_snapshot.go:170-187 | reading the records of an entry list ends with its table, or refuses an object |
| SourcePack.DecodeOfPack | shellagent/apphost/source_snapshot.go:163-191 | the encoding of a list is accepted exactly when every object hashes to its digest and no digest repeats |
| SourcePack.AcceptedExactly | shellagent/apphost/source_snapshot.go:163-191 | canonicity: the accepted packs are exactly the encodings of genuine entry lists, to the last byte, and yield those lists as tables |
| SourcePack.EncodeRoundTrip | shellagent/apphost/source_snapshot.go:163-206 | decoding what was written for matching files succeeds exactly when the hashes match and the digests differ, and then returns every blob and nothing else |
| SourcePack.EqualFilesAreRefused | shellagent/apphost/source_snapshot.go:182-184 | two files of equal content make a pack that the reader refuses |
| SourcePack.GenuineMeans | shellagent/apphost/source_snapshot.go:182-186 | the running duplicate test means that all digests differ and match their data |
| SourcePack.TableMeans | shellagent/apphost/source_snapshot.go:182-186 | the table holds each entry once and nothing else new |
| SourcePack.PanicsExactly | shellagent/apphost/source_snapshot.go:175-181 | the slice panics exactly when, after genuine records, a size is announced that takes the offset past 2^64 |
| SourcePack.OutcomeDecided | shellagent/apphost/source_snapshot.go:163-191 | every outcome is decided by what follows the genuine records a pack begins with: trailing bytes, a cut record, a wrapping size, a repeated or wrong object, or nothing |
| SourcePack.WrappedSizePanics | shellagent/apphost/source_snapshot.go:175-181 | a 52-byte pack with size 2^64 - 1 passes the length test and crosses the slice bounds |
| NativeFrames.ReadsExactlyFrames | shellagent/native_host.go:54-99 | a message is read off a stream exactly when it is within the writer limit and the stream begins with its frame: reader and writer limits agree |
| NativeFrames.ParseFrames | shellagent/native_host.go:54-99 | a list of frames is read back in order, and what follows is read as if they had not been there |
| NativeFrames.StreamRoundTrip | shellagent/native_host.go:54-99 | any list of fitting messages, written and read, is the same list with nothing left |
| NativeFrames.ReadAccountsForBytes | shellagent/native_host.go:54-78 | the messages read from any stream account for its bytes up to the failure |
| NativeFrames.FrameSocket.ReadFull | shellagent/native_host.go:59-69 | exactly n bytes are read from arrivals cut in any way, or everything and a failure |
| NativeFrames.FrameSocket.Read | shellagent/native_host.go:54-78 | one read depends only on the bytes to come, not on how they are cut: fewer than five end the stream, a length of 0 or over 22020096 is invalid, a cut payload ends the stream, a kind other than 1 and 2 is invalid |
| NativeFrames.FrameSocket.Write | shellagent/native_host.go:80-99 | a message within the limit is appended as its frame, or cut where the connection fails; a larger one is refused without a byte |
| NativeFrames.FrameSocket.ReadTexts | shellagent/native_host.go:492-499 | the control loop reads the texts in order, drops other messages, and ends with the first failure or its context |
| NativeFrames.ParseUpToIsPrefix | shellagent/native_host.go:492-499 | a context that outlives the stream reads all of it, another the first messages of it |
| NativeFrames.BuildFrame | shellagent/native_host.go:91-94 | the frame buffer holds length, kind and payload |
| NativeFrames.FrameLayout | shellagent/native_host.go:91-94 | four big-endian bytes of length with the kind, 1 for text and 2 for binary, the payload |
| WindowsQuoting.QuoteArgument | shellagent/desktop/user_session_windows.go:134-164 | the loop with its backslash counter: an empty argument is two quotes, one with a space, tab, line break, vertical tab or quote is put in quotes, any other stays as it is |
| WindowsQuoting.BodyRuns | shellagent/desktop/user_session_windows.go:144-162 | backslashes are doubled before the end and before a quote, which gets one more, and stay as they are elsewhere |
| WindowsQuoting.JoinMeans | shellagent/desktop/user_session_windows.go:132-166 | a line is its arguments with one space between two |
| WindowsQuoting.QuoteWindowsCommandLine | shellagent/desktop/user_session_windows.go:132-166 | the quoted arguments joined by spaces |
| WindowsQuoting.BodyParses | shellagent/desktop/user_session_windows.go:144-162 | inside quotes any runs of backslashes and quotes parse back under Microsoft's rules |
| WindowsQuoting.PlainParses | shellagent/desktop/user_session_windows.go:139-142 | an argument without special characters parses as itself |
| WindowsQuoting.QuoteParses | shellagent/desktop/user_session_windows.go:134-164 | one quoted argument parses back to itself and leaves the rest of the line |
| WindowsQuoting.QuotingReceived | shellagent/desktop/user_session_windows.go:132-166 | for all argument lists, parsing the quoted line by the argument rules of "Parsing C command-line arguments" gives every argument, stray bytes of quoted ones as U+FFFD |
| WindowsQuoting.QuotingRoundTrip | shellagent/desktop/user_session_windows.go:132-166 | the list comes back exactly when no argument that needs quotes has a byte outside a rune |
| WindowsQuoting.ProgramOfQuote | shellagent/desktop/user_session_windows.go:132-166 | under the different rule for the program name, a quoted argument is read back exactly when it is safe |
| WindowsQuoting.CommandLineRoundTrip | shellagent/desktop/user_session_windows.go:132-166 | a whole command line comes back exactly when, besides, its first argument needs no quotes, or is a valid text with no quote and no trailing backslash |
| WindowsQuoting.ProgramNameDoubles | shellagent/desktop/user_session_windows.go:132-166 | a program name with a space and a final backslash does not come back |
| ConnectPrefix.UrlAllowed | shellagent/connect/http_connect.go:78-127 | by its fields: a URL is allowed exactly when it has no user, decodes, has no ".." segment, and some pattern has its scheme, its host and its path, or the beginning of it up to a slash |
| ConnectPrefix.OriginInjective | shellagent/connect/http_connect.go:99-107 | origins tell scheme and host apart |
| ConnectPrefix.UnescapeRefuses | shellagent/connect/http_connect.go:87-90 | a path is refused exactly when a percent sign in it is not followed by two hexadecimal digits |
| ConnectPrefix.UnescapeAppend | shellagent/connect/http_connect.go:87-90 | a path is decoded piece by piece |
| ConnectPrefix.EscapeMeans | shellagent/connect/http_connect.go:87-90 | an escape in either case stands for the byte of its digits |
| ConnectPrefix.UnescapeOfEscape | shellagent/connect/http_connect.go:87-90 | a text escaped byte by byte comes back |
| ConnectPrefix.PathMatches | shellagent/connect/http_connect.go:112-123 | one pattern matches exactly when its segments, less one trailing slash, begin the request's |
| ConnectPrefix.PathTestsAreSegments | shellagent/connect/http_connect.go:108-123 | the string tests accept exactly when the pattern's segments, less one trailing slash, begin the request's |
| ConnectPrefix.SegmentPrefix | shellagent/connect/http_connect.go:115-123 | a segment prefix is the whole path or ends at one of its slashes |
| ConnectPrefix.StemOfPath | shellagent/connect/http_connect.go:115-121 | dropping one trailing slash drops one empty segment |
| Texts.JoinOfSplit | shellagent/connect/http_connect.go:95-99 | splitting at slashes loses nothing |
| Texts.SplitAt | shellagent/connect/http_connect.go:95-99 | splitting distributes over a separator |
| Texts.SplitOfJoin | shellagent/desktop/presentation_model.go:58-62 | pieces without a separator come back from joining and splitting |
| ExecEnvironment.EnvironmentFor | shellagent/proc/process.go:19-73 | a nil request inherits; one is refused exactly when it has more than 64 names, a name that is not an identifier, a value that is neither null nor text, or a text over 16384 bytes; any other yields the list produced by the iteration order |
| ExecEnvironment.Environment.constructor | shellagent/proc/process.go:27-33 | the index loop maps each name to its last entry |
| ExecEnvironment.Environment.Set | shellagent/proc/process.go:34-42 | set replaces the indexed slot or appends |
| ExecEnvironment.Environment.Unset | shellagent/proc/process.go:43-58 | unset swaps the last entry in and moves its index |
| ExecEnvironment.StepConsistent | shellagent/proc/process.go:34-58 | each edit keeps every indexed slot holding an entry of its name |
| ExecEnvironment.StepCounts | shellagent/proc/process.go:34-58 | an edit takes out the indexed entry and puts in the requested one, every other text keeping its count |
| ExecEnvironment.StepKeepsSole | shellagent/proc/process.go:43-58 | an edit of one name keeps the index of every other name exact, the moved entry included |
| ExecEnvironment.StepSole | shellagent/proc/process.go:34-58 | an edit of a name with one indexed entry does what was asked |
| ExecEnvironment.StepMisses | shellagent/proc/process.go:27-58 | an entry that is not the indexed one of its name outlives the edit |
| ExecEnvironment.EnvironmentOverridden | shellagent/proc/process.go:59-72 | in any iteration order the result is the base overridden by the request with the null names removed |
| ExecEnvironment.OverriddenExactly | shellagent/proc/process.go:26-72 | as a list, its order aside, that holds for all orders exactly when no requested name comes twice or bare in the base |
| ExecEnvironment.SeenWhenUnique | shellagent/proc/process.go:26-72 | what a started process sees of a name, its last entry, is as asked for names that come once |
| ExecEnvironment.SeenWithoutRemovals | shellagent/proc/process.go:34-42 | and for every name, base and order when the request removes nothing |
| ExecEnvironment.DropSeenExactly | shellagent/proc/process.go:43-57 | one removal changes what is seen of another name exactly when the entry that takes the removed place passes a different entry of that name |
| ExecEnvironment.RemovalReordersDuplicates | shellagent/proc/process.go:43-57 | a removal can change what is seen of a repeated name that was not asked about |
| ExecEnvironment.SoleMeans | shellagent/proc/process.go:27-33 | what the condition asks of a base list |
| ExecEnvironment.UniqueNamesStay | shellagent/proc/process.go:26-72 | a unique name stays unique, and the index finds exactly its slot |
| OutputBudget.Budget.Take | shellagent/proc/process.go:117-133 | a request is granted up to what remains, which drops by as much |
| OutputBudget.CopyOutput | shellagent/proc/process.go:303-316 | a reader alone sends what it read, cut where the budget ends |
| OutputBudget.StepKeepsReader | shellagent/proc/process.go:303-316 | each step keeps what was sent a prefix of what was read |
| OutputBudget.StepKeepsAccounts | shellagent/proc/process.go:117-133 | nothing is lost between the budget and the two readers |
| OutputBudget.SentIsPrefix | shellagent/proc/process.go:303-316 | at every moment of every interleaving each stream has sent a prefix of what its reads brought, together within the limit |
| OutputBudget.ReadIsBrought | shellagent/proc/process.go:303-316 | a stream has read exactly what its own reads brought |
| OutputBudget.SentInTotal | shellagent/proc/process.go:117-133 | with no chunk in hand the total sent is the smaller of the limit and what the reads brought |
| Shortcuts.ParsePresentationKey | shellagent/desktop/presentation_model.go:56-99 | the loop over the parts computes the specified key or refuses |
| Shortcuts.RegisterKeepsTied | shellagent/desktop/presentation_model.go:227-243 | registering keeps accelerators and keys in bijection |
| Shortcuts.RegisterKeepsInvExactly | shellagent/desktop/presentation_model.go:227-243 | registering keeps accelerators, keys and native ids in bijection exactly when the next id is not one still in use, a condition on the registry before the call |
| Shortcuts.UnregisterKeepsInv | shellagent/desktop/presentation_model.go:244-250 | unregistering keeps the bijections |
| Shortcuts.UnregisterRemovesAlias | shellagent/desktop/presentation_model.go:244-250 | any spelling of a key removes its shortcut, its native id and nothing else |
| Shortcuts.ClearKeepsInv | shellagent/desktop/presentation_model.go:210-217 | unregisterAll leaves nothing registered |
| Shortcuts.RegistryInvariant | shellagent/desktop/presentation_model.go:205-251 | after any commands with at most 2^32 register attempts: bijections, exactly those ids registered natively, at most 64 |
| Shortcuts.RefusalsMean | shellagent/desktop/presentation_model.go:234-240 | attempts that the operating system refuses move the id counter and nothing else |
| Shortcuts.OneAttemptMore | shellagent/desktop/presentation_model.go:227-243 | 2^32 + 1 attempts can leave two shortcuts with one native id |
| ShortcutSpelling.IdReuseHappens | shellagent/desktop/presentation_model.go:227-243 | and do so with two actual shortcuts |
| Shortcuts.Controller.Register | shellagent/desktop/presentation_model.go:227-243 | the first check that fails answers: the accelerator, the key, the room of 64, the next 32-bit id up to 49151, the operating system; only a success is filed, under the new id |
| Shortcuts.Controller.Unregister | shellagent/desktop/presentation_model.go:244-250 | a registered key goes with its accelerator and native id; another changes nothing |
| Shortcuts.Controller.UnregisterAll | shellagent/desktop/presentation_model.go:210-217 | the registry is empty, its native ids are gone and no others |
| Shortcuts.Controller.UnregisterIds | shellagent/desktop/presentation_model.go:211-213 | the loop unregisters exactly the ids of the registry |
| Shortcuts.Controller.Close | shellagent/desktop/presentation_model.go:169-175 | closing leaves the operating system no shortcut |
| Shortcuts.Controller.Hotkey | shellagent/desktop/presentation_model.go:314-321 | a native event finds the one accelerator of its id |
| ShortcutSpelling.SpellingParses | shellagent/desktop/presentation_model.go:56-99 | every key has a spelling that parses back to it |
| ShortcutSpelling.ParseYieldsValid | shellagent/desktop/presentation_model.go:56-99 | the parser yields only keys with a modifier and a known code |
| ShortcutSpelling.AliasesShareSpelling | shellagent/desktop/presentation_model.go:56-99 | two accelerators name the same shortcut exactly when their keys have the same spelling |
| ShortcutNames.ModifierMeans | shellagent/desktop/presentation_model.go:62-81 | every modifier alias, in any case and with space around it, adds its modifier on either platform; anything else is refused |
| ShortcutNames.KeyMeans | shellagent/desktop/presentation_model.go:82-95 | a last part is understood exactly when it is a letter or digit, F1 to F20 or one of the 21 names, and gives that code |
| ShortcutNames.AcceleratorMeans | shellagent/desktop/presentation_model.go:56-99 | an accelerator is accepted exactly when it has two parts or more, at most 128 bytes, only modifiers but for the last part and a key there, and stands for just those |
| Texts.TrimMeans | shellagent/desktop/presentation_model.go:63-82 | trimming takes off space at both ends and nothing else |
| Texts.TrimUnique | shellagent/desktop/presentation_model.go:63-82 | and there is one way to do that |
| ReplaceExecutable.FileSystem.CopyFile | update_helper.go:307-330 | a copy changes its target only, at every moment; a copy onto itself truncates |
| ReplaceExecutable.SwapIn | update_helper.go:111-118 | the renames with rollback: files after each outcome, old bytes at target or backup or new bytes at target in every state |
| ReplaceExecutable.ReplaceByCopy | update_helper.go:99-123 | the same from another directory, with the staged copy cleaned up |
| ReplaceExecutable.ReplaceExecutable | update_helper.go:90-124 | files after each outcome; a success has the new bytes at the target and the old at the backup, source and staged copy gone, unless the source has the backup name; no other file ever differs; old bytes kept in every state; a failure whose rollback works changes nothing but the scratch names |
| ReplaceExecutable.FailureHolds | update_helper.go:112-118 | a failed replacement has the old executable at the target when the rollback works, else at the backup |
| ReplaceExecutable.RunUpdateHelper | update_helper.go:201-237 | the helper drops the backup only after the new bytes are in place |
| ReplaceExecutable.CleanupStale | update_helper.go:64-80 | exactly the leftovers whose removal works are gone: a helper in the update directory or a scratch name of the executable; in every state between no other file is missing or changed |
| ReplaceExecutable.PrepareAndExec | update_helper_unix.go:49-78 | prepare, stop, replace, exec or restore: files after each outcome, old bytes kept until the new are in place |
| ReplaceExecutable.ExecOrRestore | update_helper_unix.go:66-77 | a failed exec whose restore works has the old executable back |
| ReplaceExecutable.ExecInstalledUpdate | update_helper_unix.go:47-79 | the same from the files as they were before leftovers were cleared |
| ReplaceExecutable.Names | update_helper.go:83-111 | the prepared, staged and backup names are distinct siblings of the executable |
| ReplaceExecutable.ScratchIsStale | update_helper.go:64-88 | whatever an update of the executable leaves behind, the next one clears |
| ReplaceExecutable.SegmentsDrop | update_helper.go:99 | a path is compared with empty segments, dots and double dots resolved |
| ReplaceExecutable.DirOfPlain | update_helper.go:99 | the directory of an absolute path of plain names is that path without the last |

## Left out

- Network, HTTP, WebRTC and QUIC transport, process spawning, operating-system UI, registry, firewall and installers: foreign calls.
- Signatures and proofs of possession: an identity that reaches the grant store is taken as verified; SHA-256 is an arbitrary function.
- JSON, `net/url` parsing and gzip: decoded requests, parsed URLs and unpacked packs are inputs.
- Permission ids are trimmed, non-empty names; catalog danger levels and groups are display data.
- Connect allow lists and screen orientation inside grant records: carried along by the source, not read by any modelled operation.
- Uncounted bridge sets (shellagent/relay.go:85): they have no counter, so the idle-update results speak of counted sets.
- The relay's direct assignment of identities (shellagent/relay.go:31) and relayGrantFor's accumulation (shellagent/relay.go:260-264): not part of the sync and frame results.
- Reliable filesystem channels (shellagent/agent.go:1106-1136): they do not check the identity again, so the frame result is about the control loop.
- Two grant operations that read and write the same record at once: each operation is one step. Frames served between a store and the close that follows it are covered: the frame result speaks of every socket ever opened.
- ExecEnvironment.SeenWhenUnique: with repeated names and several removals, what is seen depends on the iteration order too; the exact condition is given for one removal (ExecEnvironment.DropSeenExactly).
- GrantSockets.OpenSocketPasses: for a socket that was not opened as a native app's, the key id does not begin with `native:`; a browser key id is the base64url text of a digest, which has no colon.
- A pending permission request's race between its answer and its expiry (shellagent/permissions.go:183-190): the decision is an input.
- Reassembly.Receiver.Receive: table entries are values replaced in the map, where the source updates them in place, through references that only the table holds.
- ReassemblyRuns.ReassemblySound: a fully duplicated message may be delivered twice, and nothing is said beyond 2^32 messages of one sender, where message ids repeat.
- BridgeUpdates.CounterExact: the counter is unbounded, and ids given to one set are fresh, as the bridge protocol makes them.
- BridgeUpdates.BridgeSet.Take: what the callers at shellagent/network_bridge.go:155 and 165 do with a missing connection (a method call on nil) is not modelled.
- The wait for idle bridges (shellagent/updater.go:244-279): whichever way it ends, the reservation that follows decides.
- IceSessions.SessionsExclusive: generations are unbounded where the source has 64 bits.
- Adding a default TERM to a terminal's environment (shellagent/proc/process.go:75-88).
- Two spellings of one file: the update model names a file by its path's text, with Unix path rules. The in-place variant on Windows is left out.
- Pattern characters in the directory or name of the executable itself, which would change what the leftover patterns match.
- Publishing's rewrite of local files and its rollback (shellagent/apps_publish.go:109-114), live file search limits (shellagent/services.go:459-461), tray menus, menu clicks and drop targets, and the video fragmenter: nothing here depends on them.
- The list of connect patterns (sorted, without duplicates) is an input to the path tests.
