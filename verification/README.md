# Admission, from a signed link to the wire

This project models how a Citrate cluster decides who may exchange messages in a group, and proves that
the decision is kept all the way to the network. `dafny verify dfyconfig.toml` checks all of it.

A member roster (addresses with roles) and a batch of signed device links and revocations arrive with a
roster request. The registry verifies and resolves the batch. The effective roster widens the member roster
with each member's devices and takes members off their own identity once they use device keys. The gate is
the set of addresses at rank Member or above in it. A session keeps the admitted within the allowed and
drives a transport; the daemon holds one session per group and device state that outlives leaving. On the
networked transport the swarm task admits connections against the authorized set. Group seeds carry peer
addresses between machines as text.

| file | what it holds |
|---|---|
| `Wrappers`, `Lex` | options; the order of strings and sorted listings |
| `Addresses`, `TextLaws`, `Links`, `SigningLaws` | canonical addresses, roles, labels, CIDs; link and revocation bodies, their signing text and verification |
| `Devices`, `RegistryLaws` | the registry: specification, the object, order and history |
| `EffectiveRoster`, `GateLaws`, `DeviceRoster`, `DeviceRosterLaws` | the derived roster, the gate, and the list shown to clients |
| `Membership`, `Session` | membership, the two transports, the session |
| `Daemon`, `DaemonObject`, `DaemonLaws`, `AnswerLaws`, `IsolationLaws` | the daemon as a step function, as objects on the heap that follow it over any sequence of events, and its laws over all runs; what each request answers and does |
| `Seed`, `SeedLaws`, `SeedReadLaws`, `SeedFieldLaws`, `Utf8Laws` | the seed printer and reader, over bytes; round trips; what is read and refused; unknown fields and blanks; the bytes as UTF-8 |
| `Wire`, `StepLaws`, `WireObject`, `WireLaws`, `EvictionLaws` | the concurrent admission protocol: steps, read field by field, the code of each arm as runs of steps, invariant, refinement, eviction, messages |
| `DialTables` | the bounded dial tables |
| `EndToEnd` | daemon runs composed with the protocol |

## How the model is built

- **Signatures.** `Verifier` is any function from a message and a signature to an optional address. Messages
  are canonical bodies; `RenderInjective` shows the signed text says no less, so a verifier on texts is the
  special case `OnText`.
- **Objects.** The registry, membership, transport, session, daemon and dial tables are classes with the
  source's fields and loops. Each method's `ensures` equates the object's value with a function of the old
  value, and the laws are about those functions. `MeshTransport` is one class with a kind for the two
  transports.
- **The wire.** A step is one lock section, one send, or one stretch of task-local work between lock
  sections. `Wire` holds the shared sets, the command queue, where each of the two threads is, and what the
  loop and the swarm remember; connections are counted per peer, with how many were asked to close. Peers'
  addresses come from an arbitrary function, so nothing rests on it being injective. Events the network
  may deliver (connections, `identify`, messages) may come for any peer at any time the loop is idle.
- **Runs.** A daemon run is any sequence of requests, transport hooks, and changes by the network to what a
  transport reports; `starts` says whether the transport factory would succeed. `EndToEnd` takes the calls
  such a run makes on one group's transport and lets them interleave with the swarm task in any way.
- **Text.** Addresses, labels and CIDs are `seq<char>`; every length measured in bytes is measured on text
  the same test forces to be ASCII. Seeds and group ids are bytes, with UTF-8 and its white space and
  control characters written out; `Utf8Laws` shows that they are those of the characters encoded.
- **Two readings.** What a function specifies by how it computes, a lemma says again without it: who is
  let in, what an answer lists, what a text must be (the lemmas named `...Exactly`, `...Tells`).

## Where code and documentation differ

The model follows the code; each theorem named says how far the documented claim holds.

- `device.rs:34` calls revocation per device key. The code records (member, device) pairs, so a device
  revoked by one member may be linked by another and is then admitted (`RevokedByOneLinkedByAnother`);
  `MemberCharacterized` is the exact condition.
- `libp2p_transport.rs:33` and `:225` promise that the connected are among the admitted. A peer disconnected
  while its `identify` is handled is still listed (`ConnectedCanOutrunAuthorized`);
  `ConnectedEscapesExactly` says when, `ConnectedIsRecorded` what holds instead, and `WireWithinAuthorized`
  that nobody unauthorized can exchange messages, a queued disconnect aside.
- `libp2p_transport.rs:425` calls eviction one step that drops any live connection. It is a lock section and a
  later command. `EvictedStaysOff`, `EvictionTakesHold` and `NoLateMessages` bound who can exchange messages
  in between; for the connections, `ReconnectedFromTheStart` is a run that leaves one open with nothing asking
  it to close, and `EvictionHangsUpExactly` says when that is.
- `seed.rs:147` ignores later versions' fields. What trims a text is its end, so a field put last may be
  trimmed into a known key, or leave blanks standing on the field before it: `UnknownFieldsIgnored` is exact
  on every text that decodes, `BlankMakesAKey` and `BlankJoinsTheGroup` show both failures.
- `seed.rs:197-214` accepts `+` before the second hex digit of an escape (`EscapesAccepted`, `PlusIsZero`).
- `libp2p_transport.rs:1067-1069` keeps a late-dialed peer for re-dial. One already listed keeps its old place
  and goes as early as if it had not been dialed again: `Standing`, `ListedSurvivesExactly`,
  `AskedAgainIsDropped`.
- Two links of a device equal in issue time and label are resolved by arrival order, so nodes agree on the
  member but may differ on wallet and index: `OrderMattersExactlyOnTies`.

## Model

| member | source | states |
|---|---|---|
| `Addresses.CanonicalFixpoint` | crates/cluster-core/src/lib.rs:42-49 | canonicalising lands on exactly the 40-digit lower-case addresses and fixes each of them, so a name survives every layer it crosses |
| `TextLaws.CanonicalExactly` | crates/cluster-core/src/lib.rs:42-49 | a text has a canonical address if and only if it spells it: forty hexadecimal digits in either case, after any number of 0x, between blanks |
| `TextLaws.RolesRank` | crates/cluster-core/src/lib.rs:28-38 | exactly the four roles may mesh; how the roles rank; any other text ranks below them |
| `TextLaws.LabelExactly` | crates/cluster-core/src/device.rs:96-103 | a label is 1 to 48 label characters with no space at either end |
| `TextLaws.CidExactly` | crates/cluster-core/src/lib.rs:66-79 | the two grammars of a content id, character by character |
| `SigningLaws.LinkTextInjective` | crates/cluster-core/src/device.rs:136-151 | two canonical link bodies with the same signing text are the same body, field by field |
| `SigningLaws.RevocationTextInjective` | crates/cluster-core/src/device.rs:182-191 | likewise for revocations |
| `SigningLaws.KindsDiffer` | crates/cluster-core/src/device.rs:139-191 | no link text is ever a revocation text, so a signature over one cannot pass for the other |
| `SigningLaws.RenderInjective` | crates/cluster-core/src/device.rs:136-191 | a signed text determines the kind and content of what was signed |
| `SigningLaws.DecimalReadsBack` | crates/cluster-core/src/device.rs:136-191 | the numbers in a signed text are in decimal, with no leading zero |
| `RegistryLaws.BodyExactly` | crates/cluster-core/src/device.rs:109-134 | a body is taken, and as what, if and only if its three addresses have those canonical forms, the device differs from both others, and index, label and time are as submitted and within the limits |
| `RegistryLaws.CanonicalBodyTaken` | crates/cluster-core/src/device.rs:109-134 | a canonical body within the limits is taken as it stands, whatever its time |
| `RegistryLaws.VerifyMeansAttests` | crates/cluster-core/src/device.rs:229-261 | a link passes verification if and only if it attests a body: the canonical form of the one submitted, field by field, signed as exactly that by member, device and wallet |
| `RegistryLaws.LinkRefusedExactly` | crates/cluster-core/src/device.rs:229-261 | a link is refused as Malformed if and only if no body canonicalises it, and for a signature if and only if that is the first of the three that fails |
| `RegistryLaws.VerifiedIs` | crates/cluster-core/src/device.rs:316-336 | the verified links of a batch are the bodies some item of it attests |
| `Devices.AcceptedPairsIs` | crates/cluster-core/src/device.rs:293-314 | the pairs a batch revokes are exactly those some item of it revokes: naming the pair and signed, as exactly that, by the member it names |
| `RegistryLaws.RevokedExactly` | crates/cluster-core/src/device.rs:280-314 | after an update a pair is revoked if and only if it was before, or the update is within the limits and a member-signed revocation in it names the pair |
| `RegistryLaws.KeptIsSubmitted` | crates/cluster-core/src/device.rs:316-363 | every kept link is the canonical form of one in the batch, three signatures recovering |
| `RegistryLaws.OneRevocationReported` | crates/cluster-core/src/device.rs:293-314 | a revocation is reported if and only if it revokes nothing, a bad signature included, under its canonical device if it has one |
| `RegistryLaws.LinkReportsAppend` | crates/cluster-core/src/device.rs:316-336 | refused links are reported one by one, in order |
| `RegistryLaws.UnkeptReported` | crates/cluster-core/src/device.rs:280-365 | after those of the revocations and the links, an update reports in address order every verified device it does not keep: contested if several members link it, revoked otherwise |
| `RegistryLaws.OversizedExactly` | crates/cluster-core/src/device.rs:287-291 | an update with more than 64 links or revocations changes nothing and reports just that; no other reports it |
| `Devices.LinksOfSelects` | crates/cluster-core/src/device.rs:316-336 | grouping by device loses and invents no link |
| `Devices.SortThenPop` | crates/cluster-core/src/device.rs:346-348 | taking the last of the stably sorted links is the left-to-right choice that prefers later ties |
| `Lex.LessMeans` | crates/cluster-core/src/device.rs:346-348 | the order of labels and addresses: one a proper beginning of the other, or the first differing character less |
| `RegistryLaws.NewestIsNewest` | crates/cluster-core/src/device.rs:346-348 | the chosen link is (issued_at, label)-maximal, and every link after it in the batch is strictly older |
| `RegistryLaws.KeptLink` | crates/cluster-core/src/device.rs:338-363 | a kept link is in the batch, names the device's sole member there, its pair is not revoked, and every other link of the device was issued earlier, or then and with a label no later |
| `RegistryLaws.MemberCharacterized` | crates/cluster-core/src/device.rs:338-363 | a device is filed under a member if and only if that member is the only one verified links name for it and the pair was never revoked |
| `RegistryLaws.UpdateConverges` | crates/cluster-core/src/device.rs:280-365 | any two arrival orders of links and revocations give the same revocations, the same devices and the same members |
| `RegistryLaws.UntiedLinkConverges` | crates/cluster-core/src/device.rs:338-363 | a kept link that ties with no other is kept in every order |
| `RegistryLaws.TieFollowsOrder` | crates/cluster-core/src/device.rs:346-348 | for a tied link there is an order of the same batch that keeps the other one |
| `RegistryLaws.OrderMattersExactlyOnTies` | crates/cluster-core/src/device.rs:338-363 | the kept link is the same in every order of the batch if and only if no other verified link ties with it |
| `RegistryLaws.HistoryDetermines` | crates/cluster-core/src/device.rs:280-365 | after any history the revocations are exactly those of the updates that were not oversized, and the links are the resolution of the last such batch under all of them |
| `RegistryLaws.HistoriesConverge` | crates/cluster-core/src/device.rs:280-365 | nodes that took the same updates in different orders, the last alike, agree on every revocation and on every device's member |
| `Devices.DeviceRegistry.RecordRevocations` | crates/cluster-core/src/device.rs:293-314 | the loop adds exactly the pairs member-signed revocations name and reports the others in order |
| `Devices.DeviceRegistry.VerifyAll` | crates/cluster-core/src/device.rs:316-336 | the loop files every verified link under its device, in order, and reports the rest |
| `Devices.DeviceRegistry.ResolveOne` | crates/cluster-core/src/device.rs:338-357 | one device's links are contested, revoked or resolved to the newest |
| `Devices.DeviceRegistry.ResolveAll` | crates/cluster-core/src/device.rs:338-363 | the pass over all devices gives the resolution and the refusals in device order |
| `Devices.DeviceRegistry.Update` | crates/cluster-core/src/device.rs:280-365 | the whole update: new registry value and rejections as specified, an oversized one changing nothing |
| `EffectiveRoster.ListingIsUnique` | crates/cluster-core/src/device.rs:453-460 | there is one list of a map in address order, so the specified roster is the only possible one |
| `EffectiveRoster.SortedEntries` | crates/cluster-core/src/device.rs:453-460 | sorting members and devices together is listing their union in address order |
| `EffectiveRoster.RankRoles` | crates/cluster-core/src/device.rs:423-435 | the roles loop keeps the highest rank per address |
| `EffectiveRoster.CollectDevices` | crates/cluster-core/src/device.rs:436-452 | the devices loop collects exactly the active devices and the members on device keys |
| `EffectiveRoster.PickMembers` | crates/cluster-core/src/device.rs:453-457 | the members not on device keys are kept, in order |
| `EffectiveRoster.DeriveRoster` | crates/cluster-core/src/device.rs:419-461 | the imperative derivation returns the specified effective roster |
| `GateLaws.RoleDecided` | crates/cluster-core/src/device.rs:423-435 | an address gets the role of its highest-ranked line, the first of several equal ones |
| `GateLaws.EffectiveExactly` | crates/cluster-core/src/device.rs:419-461 | exactly who is in the effective roster and as what: a roster member not on device keys in its own role, and an off-roster device linked to a member at rank in that member's role |
| `Membership.AllowedSetGates` | crates/cluster-core/src/lib.rs:96-106 | an address is allowed if and only if some line names it at rank Member or above |
| `Membership.GateRoster` | crates/cluster-core/src/lib.rs:96-106 | the loop computes the allowed set |
| `GateLaws.GateCharacterized` | crates/cluster-core/src/device.rs:419-461 | an address may mesh if and only if it is a roster member at rank with no accepted revocation of its own and no filed off-roster device, or an off-roster device filed under a member at rank |
| `GateLaws.EffectiveRosterIncreases` | crates/cluster-core/src/device.rs:453-460 | the effective roster's addresses strictly increase |
| `GateLaws.GateConverges` | crates/cluster-core/src/device.rs:280-461 | shuffling roster, links and revocations leaves the final allowed set unchanged |
| `GateLaws.RevocationAntitone` | crates/cluster-core/src/device.rs:338-461 | over one batch of links a larger revoked set never lets in a new address, although it drops links that kept members off their own identity |
| `GateLaws.MoreRevocationsNeverAdmit` | crates/cluster-core/src/device.rs:280-461 | the same end to end: of two updates with the same links, neither over the size limit, the one with more revocations never admits anyone the other does not |
| `GateLaws.OversizedAdmitsMore` | crates/cluster-core/src/device.rs:287-291 | the size condition is needed: an oversized update keeps a device admitted that the empty update drops |
| `GateLaws.RevokedByOneLinkedByAnother` | crates/cluster-core/src/device.rs:293-363 | one member revokes a device, another links it in the same update: it is filed under the second and passes the gate |
| `DeviceRosterLaws.GatedRolesAgree` | crates/cluster-core/src/device.rs:483-500 | reading only lines at rank gives the same members and roles as the effective roster's rule |
| `DeviceRosterLaws.ListedMeansLinked` | crates/cluster-core/src/device.rs:483-514 | a device is shown under a member if and only if it is filed under it and the member is listed at rank; devices come in index order |
| `DeviceRosterLaws.ListedExactly` | crates/cluster-core/src/device.rs:483-514 | the list exactly: the members at rank in address order, each in its role, with the devices filed for it by index and address, each with the index, label and time of its link |
| `DeviceRosterLaws.ShownExactlyIfAdmitted` | crates/cluster-core/src/device.rs:483-514 | an off-roster device is shown under some member if and only if the gate admits it |
| `DeviceRoster.ListDevicesOf` | crates/cluster-core/src/device.rs:387-399 | the filter-and-sort returns the specified list |
| `DeviceRoster.ListDevices` | crates/cluster-core/src/device.rs:483-514 | the imperative device roster is the specified one |
| `Membership.ClusterMembership.Join` | crates/cluster-core/src/lib.rs:136-147 | admits exactly an allowed address of sufficient role |
| `Membership.ClusterMembership.Leave` | crates/cluster-core/src/lib.rs:150-154 | removes the canonical address from the admitted set only |
| `Membership.ClusterMembership.Reconcile` | crates/cluster-core/src/lib.rs:159-171 | returns the evicted in order and keeps the admitted that are still allowed |
| `Membership.ClusterMembership.SyncAdmitted` | crates/cluster-core/src/lib.rs:201-207 | admitted becomes the allowed part of the candidates |
| `Session.MeshTransport.Dial` | crates/cluster-daemon/src/transport.rs:64-67 | in process: connected; networked: the canonical address authorized |
| `Session.MeshTransport.Disconnect` | crates/cluster-daemon/src/libp2p_transport.rs:426-434 | networked: deauthorized, disconnected and a disconnect queued for the swarm task; in process: disconnected |
| `Session.MeshTransport.Drain` | crates/cluster-daemon/src/transport.rs:80-82 | everything received since the last drain, once |
| `Session.MeshTransport.Reports` | crates/cluster-daemon/src/transport.rs:44-62 | what the network may change of a transport |
| `Session.MeshTransport.AddPeers` | crates/cluster-daemon/src/libp2p_transport.rs:469-477 | all addresses are dialed, or none |
| `Session.ClusterSession.Join` | crates/cluster-core/src/lib.rs:236-244 | a session join dials exactly when it admits |
| `Session.ClusterSession.Leave` | crates/cluster-core/src/lib.rs:247-252 | removes and disconnects |
| `Session.ClusterSession.Reconcile` | crates/cluster-core/src/lib.rs:255-261 | evicts and disconnects exactly the evicted, in one call |
| `Session.ClusterSession.SyncAdmittedFromWire` | crates/cluster-core/src/lib.rs:283-286 | admitted becomes exactly what is connected and allowed, the rest as it was |
| `DaemonObject.ClusterDaemon.EnsureSession` | crates/cluster-daemon/src/lib.rs:286-304 | a session is opened, or refused for an empty group, the limit or the factory, changing nothing |
| `DaemonObject.ClusterDaemon.ApplyRoster` | crates/cluster-daemon/src/lib.rs:361-378 | reconcile, then the deauthorizing loop, then the authorizing loop |
| `DaemonObject.ClusterDaemon.UpdateDevices` | crates/cluster-daemon/src/lib.rs:346-352 | the roster is replaced and the registry updated, an oversized batch included |
| `DaemonObject.ClusterDaemon.SetRosterWithDevices` | crates/cluster-daemon/src/lib.rs:334-357 | the whole roster request on heap objects gives the specified state and answer |
| `DaemonObject.ClusterDaemon.JoinGroup` | crates/cluster-daemon/src/lib.rs:382-386 | joining only opens a session |
| `DaemonObject.ClusterDaemon.LeaveGroup` | crates/cluster-daemon/src/lib.rs:419-424 | leaving drops session and shared files, never device state |
| `DaemonObject.ClusterDaemon.SyncAdmission` | crates/cluster-daemon/src/lib.rs:250-254 | the admitted set follows the wire; ReadsFollowTheWire says to where |
| `DaemonObject.ClusterDaemon.DrainIntoShared` | crates/cluster-daemon/src/lib.rs:260-281 | drain, keep well-formed CIDs, fill the shared set to its cap |
| `DaemonObject.ClusterDaemon.ShareOne` | crates/cluster-daemon/src/lib.rs:496-513 | share one file or refuse, changing nothing |
| `DaemonObject.ClusterDaemon.AddSeedPeers` | crates/cluster-daemon/src/lib.rs:406-415 | take a seed for this group or refuse, changing nothing |
| `DaemonObject.ClusterDaemon.AdmitOne` | crates/cluster-daemon/src/lib.rs:549-557 | the admit hook |
| `DaemonObject.ClusterDaemon.DropOne` | crates/cluster-daemon/src/lib.rs:560-564 | the drop hook |
| `DaemonObject.ClusterDaemon.HandleRequest` | crates/cluster-daemon/src/ipc.rs:143-208 | dispatch: every request moves the heap daemon to the specified next state and gives the specified answer |
| `DaemonObject.ClusterDaemon.HandleEvent` | crates/cluster-daemon/src/lib.rs:549-564 | any event, the two hooks and the network's changes included, is one step of the run |
| `DaemonObject.ClusterDaemon.HandleEvents` | crates/cluster-daemon/src/ipc.rs:143-208 | event after event, the heap daemon ends where the run does, each request answered as the state it met says |
| `DaemonObject.Serve` | crates/cluster-daemon/src/lib.rs:170-200 | a daemon started and given any events holds what the run says, so the laws about runs are laws about it |
| `DaemonLaws.AppliedIsSound` | crates/cluster-daemon/src/lib.rs:361-378 | after a roster is applied: allowed is the gate, admitted is what of it was admitted, networked authorized equals allowed whatever drops came before, and a disconnect is queued for each evicted address and then for each that left the allowed set, in order |
| `DaemonLaws.LeftIsSound` | crates/cluster-core/src/lib.rs:247-252 | a leave takes exactly the named address off the admitted, the wire and the networked authorized set, and queues its disconnect |
| `DaemonLaws.GroupsAreIsolated` | crates/cluster-daemon/src/ipc.rs:143-208 | an event for one group leaves every other group's session, files and device state alone |
| `DaemonLaws.ErrorsChangeNothing` | crates/cluster-daemon/src/ipc.rs:143-208 | a request answered with an error changes nothing |
| `IsolationLaws.RequestIsLocal` | crates/cluster-daemon/src/ipc.rs:143-208 | what a request does to its group depends on nothing held for others but whether a session may open |
| `IsolationLaws.GroupsDoNotInterfere` | crates/cluster-daemon/src/lib.rs:237-424 | after every event of any run a group's state is what it would be had the other groups' events never happened, if and only if no event of the group meets the session limit where it would open a session |
| `IsolationLaws.OnlyTheLimitInterferes` | crates/cluster-daemon/src/lib.rs:286-304 | an event that meets the limit does make the difference: the state is not the same both before and after it |
| `IsolationLaws.AnswersDoNotInterfere` | crates/cluster-daemon/src/ipc.rs:143-208 | until then a request is answered as it would be had the other groups' events never happened, if and only if it does not itself meet the limit |
| `DaemonLaws.AbsorbedFills` | crates/cluster-daemon/src/lib.rs:260-281 | absorbing fills the shared set to min(cap, old and new together) and loses no old file |
| `DaemonLaws.DrainFills` | crates/cluster-daemon/src/lib.rs:260-281 | one drain empties the inbox and fills the shared set with its well-formed CIDs up to the cap |
| `DaemonLaws.PagesTile` | crates/cluster-daemon/src/lib.rs:518-535 | pages cut one after another from a listing concatenate to it, with no gap or repeat |
| `DaemonLaws.PagesSeeOneListing` | crates/cluster-daemon/src/lib.rs:518-535 | a page request leaves nothing for the next one to drain, whatever page either asks for |
| `DaemonLaws.RequestsTile` | crates/cluster-daemon/src/lib.rs:518-535 | successive page requests, nothing arriving between, collect the whole sorted listing as it stood at the first, each file once |
| `DaemonLaws.RunsKeepInv` | crates/cluster-daemon/src/ipc.rs:143-208 | the daemon invariant holds after every run |
| `DaemonLaws.EveryRunIsSound` | crates/cluster-daemon/src/lib.rs:286-378 | in every reachable state: admitted within allowed; allowed is the gate of the stored roster and registry if a roster has been applied since the session was created, and empty if not; in-process connected equals admitted; networked authorized within allowed; session and file limits hold |
| `DaemonLaws.AllowedIsExactly` | crates/cluster-daemon/src/lib.rs:286-378 | the allowed set of a session is exactly the gate once rostered and exactly empty before |
| `DaemonLaws.OnlyRostersChangeAllowed` | crates/cluster-daemon/src/ipc.rs:143-208 | nothing but a roster let through changes a session's allowed set |
| `DaemonLaws.AuthorizedTracksAllowed` | crates/cluster-daemon/src/lib.rs:361-378 | networked authorized equals allowed across every event but a drop, and an accepted roster restores it always |
| `DaemonLaws.DropMisalignsExactly` | crates/cluster-daemon/src/lib.rs:560-564 | a drop breaks that equality if and only if it names an allowed address |
| `DaemonLaws.AlignedWithoutDrops` | crates/cluster-daemon/src/lib.rs:361-378 | over a run that drops no peer of the group authorized equals allowed after every event |
| `DaemonLaws.DeviceStateIsReplay` | crates/cluster-daemon/src/lib.rs:334-424 | device state is the replay of every accepted update, across departures and returns |
| `DaemonLaws.OffRosterNeedsLink` | crates/cluster-daemon/src/lib.rs:334-378 | an off-roster address is allowed only by a link in the last batch taken, three signatures recovering, one sole member at rank, the pair never revoked in the group |
| `DaemonLaws.OffRosterAllowedExactly` | crates/cluster-daemon/src/lib.rs:334-378 | once rostered an off-roster address is allowed if and only if the last batch taken names one sole member for it, that member is listed at rank, and the pair was never revoked in the group |
| `DaemonLaws.TakenRevocationCounts` | crates/cluster-core/src/device.rs:293-314 | a member-signed revocation counts from the first update let through that carries it |
| `DaemonLaws.RevocationIsForever` | formal/DeviceLink.tla:203-215 | once a member's revocation is accepted, no later state with the member on the roster allows or admits the member's own address |
| `DaemonLaws.SeedsTransfer` | crates/cluster-daemon/src/lib.rs:390-415 | a printed seed is taken by another daemon of the group, which dials exactly those addresses, unless the text is too long, and then nothing changes |
| `AnswerLaws.ReadsFollowTheWire` | crates/cluster-daemon/src/lib.rs:250-254 | after any status, peers, poll or devices request the admitted are exactly the connected among the allowed; connected, authorized and allowed stay as they were |
| `AnswerLaws.RosterAfterRead` | crates/cluster-daemon/src/lib.rs:250-378 | in every run a roster taken right after such a request evicts, in order, exactly the connected and allowed addresses its gate leaves out |
| `AnswerLaws.ReadsTakeIn` | crates/cluster-daemon/src/lib.rs:250-281 | status, a poll and a page request each take in what was received, up to the cap; no other read touches the files, and a page request does not touch the admitted |
| `AnswerLaws.ReportedThenRead` | crates/cluster-daemon/src/lib.rs:250-254 | in every networked run, after a report and a read the admitted are exactly the allowed among the reported, and what was received is what is drained |
| `AnswerLaws.ReportedExactly` | crates/cluster-daemon/src/libp2p_transport.rs:436-484 | what a transport has after a report is what was reported: on one node only what was received, over the network also who is connected and where it listens |
| `AnswerLaws.RosterExactly` | crates/cluster-daemon/src/lib.rs:334-378 | a roster taken: evicted, rejected, allowed, admitted, wire and stored state, each exactly |
| `AnswerLaws.RosterTakenExactly` | crates/cluster-daemon/src/lib.rs:334-344 | a roster is taken if and only if the group may be entered, and refused for the reason joining is |
| `AnswerLaws.JoinedExactly` | crates/cluster-daemon/src/lib.rs:237-304 | joining succeeds if and only if the pin allows it and there is a session or room, a name and a transport for one; which refusal comes first; the session is new and empty |
| `AnswerLaws.SessionsAreEnterable` | crates/cluster-daemon/src/lib.rs:237-304 | in every run a daemon pinned to a group serves no other, and none has a blank name |
| `AnswerLaws.LeftExactly` | crates/cluster-daemon/src/lib.rs:419-424 | leaving forgets the group's session and files and nothing else |
| `AnswerLaws.StatusTells` | crates/cluster-daemon/src/lib.rs:430-448 | status counts the connected and the allowed and lists in order the files held, those just received included |
| `AnswerLaws.PeersTells` | crates/cluster-daemon/src/lib.rs:451-474 | peers lists exactly the allowed in order, each online if and only if connected, under a member if and only if a link files it there |
| `AnswerLaws.MembersTells` | crates/cluster-daemon/src/lib.rs:478-492 | devices lists the members at rank and their devices by the stored roster and links |
| `AnswerLaws.PollHandsOver` | crates/cluster-daemon/src/lib.rs:540-543 | a poll hands over the well-formed messages received, each once, in order |
| `AnswerLaws.PageTells` | crates/cluster-daemon/src/lib.rs:518-535 | a page is the listing from its offset on, as many as asked for, at most 1024, with the total |
| `AnswerLaws.SharedExactly` | crates/cluster-daemon/src/lib.rs:496-513 | a file is shared, and published to the network, if and only if the group is joined, the CID well formed, and it is known or there is room; every refusal changes nothing |
| `AnswerLaws.SeedTakenExactly` | crates/cluster-daemon/src/lib.rs:406-415 | a seed is taken if and only if it decodes to one for this group, joined over the network, all of whose addresses can be dialed; each refusal exactly; the dials queued in order |
| `AnswerLaws.SeedGivenExactly` | crates/cluster-daemon/src/lib.rs:390-401 | a seed is given if and only if the transport listens on addresses that make a valid one for the group |
| `AnswerLaws.AdmittedExactly` | crates/cluster-daemon/src/lib.rs:549-557 | the admit hook admits and dials exactly an allowed address offered at rank |
| `AnswerLaws.DroppedExactly` | crates/cluster-daemon/src/lib.rs:560-564 | the drop hook takes exactly the named address off the admitted and the transport |
| `Seed.EncodeValue` | crates/cluster-core/src/seed.rs:184-195 | the escaping loop |
| `Seed.DecodeValue` | crates/cluster-core/src/seed.rs:197-214 | the unescaping loop with its index |
| `Seed.EncodeSeed` | crates/cluster-core/src/seed.rs:108-119 | the printing loop |
| `Seed.DecodeSeed` | crates/cluster-core/src/seed.rs:122-159 | the reading loop over fields, with every early return |
| `SeedLaws.EscapesAccepted` | crates/cluster-core/src/seed.rs:197-214 | the spellings of each byte after a percent sign, exactly: its hex digits in either case, or below sixteen a plus sign and its digit |
| `SeedLaws.PlusIsZero` | crates/cluster-core/src/seed.rs:197-214 | so two escaped texts read as one byte string: decoding is not injective |
| `SeedLaws.UnescapeEscaped` | crates/cluster-core/src/seed.rs:184-214 | unescaping undoes escaping on every byte string, whatever follows |
| `SeedLaws.ReadsBack` | crates/cluster-core/src/seed.rs:108-159 | reading the fields of a printed seed gives the seed, with no length bound |
| `SeedLaws.RoundTrip` | crates/cluster-core/src/seed.rs:94-159 | decode(encode(s)) is s when the text is at most 2048 bytes and TooLong otherwise, for every valid seed |
| `SeedLaws.SeedsCanBeTooLong` | crates/cluster-core/src/seed.rs:94-127 | a valid seed whose text is too long to be read back |
| `SeedLaws.PrinterInjective` | crates/cluster-core/src/seed.rs:108-119 | two valid seeds never print the same text, however long |
| `SeedReadLaws.EscapeShape` | crates/cluster-core/src/seed.rs:184-195 | what is escaped, and that escapes are a percent sign and two capital digits of the byte |
| `SeedReadLaws.ValueExactly` | crates/cluster-core/src/seed.rs:197-214 | a value is read as a text if and only if it spells it byte by byte, each itself or escaped; any other is a bad escape |
| `SeedReadLaws.KeyValueExactly` | crates/cluster-core/src/seed.rs:131-132 | a field is its key and value around its first equals sign, or all key |
| `SeedReadLaws.ReadsExactly` | crates/cluster-core/src/seed.rs:131-148 | fields are read if and only if every known value can be, with at most one group and eight addresses; what is read is the last version, the group and the addresses in order |
| `SeedReadLaws.DecodedExactly` | crates/cluster-core/src/seed.rs:122-159 | a text is read as a seed if and only if, trimmed, it is at most 2048 bytes, has the prefix, and its fields say version 1 and a valid seed |
| `SeedReadLaws.DecodedIsValid` | crates/cluster-core/src/seed.rs:94-159 | what is read is a seed as the constructor would make it |
| `SeedReadLaws.RefusedExactly` | crates/cluster-core/src/seed.rs:122-159 | each refusal exactly: length, prefix, the first field that cannot be read, then version, group, validation |
| `SeedReadLaws.FieldRefusedExactly` | crates/cluster-core/src/seed.rs:133-147 | a field is refused if and only if it repeats the group, brings a ninth address, or has a known key and an unreadable value |
| `SeedReadLaws.FinishRefusedExactly` | crates/cluster-core/src/seed.rs:94-157 | after the fields: version, group, number of addresses, each address, in that order |
| `SeedReadLaws.AddrExactly` | crates/cluster-core/src/seed.rs:168-182 | an address is accepted if and only if it is at most 256 graphic bytes that make a path of non-empty parts with a p2p part followed by letters and digits |
| `Utf8Laws.Utf8Exactly` | crates/cluster-core/src/seed.rs:197-214 | bytes pass as text if and only if they are the UTF-8 encoding of some text |
| `Utf8Laws.SpaceExactly` | crates/cluster-core/src/seed.rs:122-124 | the bytes trimmed are exactly the encodings of the blank characters |
| `Utf8Laws.TrimAgrees` | crates/cluster-core/src/seed.rs:122-124 | trimming the bytes of a text is trimming the text |
| `Utf8Laws.ControlExactly` | crates/cluster-core/src/seed.rs:162-164 | bytes have a control character if and only if the text they encode has |
| `Utf8Laws.GroupExactly` | crates/cluster-core/src/seed.rs:162-164 | a group id is accepted if and only if as text it is not blank, has no control character and takes at most 256 bytes |
| `SeedFieldLaws.OuterBlanksIgnored` | crates/cluster-core/src/seed.rs:122-124 | blanks before and after any text never matter |
| `SeedFieldLaws.TrimText` | crates/cluster-core/src/seed.rs:122-124 | trimming a text trims its last field and nothing before it |
| `SeedFieldLaws.EveryTextHasFields` | crates/cluster-core/src/seed.rs:122-136 | every text that decodes is, blanks before it aside, a list of fields after the prefix |
| `SeedFieldLaws.DecodeFields` | crates/cluster-core/src/seed.rs:122-159 | a text within the limit is read as its fields with the last one trimmed |
| `SeedFieldLaws.UnknownFieldsPass` | crates/cluster-core/src/seed.rs:122-159 | in any text, readable or not, an unknown field changes nothing before the last field, nor after it if trimming touches neither or makes neither known |
| `SeedFieldLaws.UnknownFieldsIgnored` | crates/cluster-core/src/seed.rs:122-159 | in every text that decodes an unknown field leaves what is read unchanged if and only if it does not come last, or its own trailing blanks hide no known key and the field that was last ended in no blanks or is not a known one |
| `SeedFieldLaws.BlankMakesAKey` | crates/cluster-core/src/seed.rs:122-159 | the first exception is real: a field `v` followed by a blank becomes the version key |
| `SeedFieldLaws.BlankJoinsTheGroup` | crates/cluster-core/src/seed.rs:122-159 | the second is real: with a field `x` appended, a blank after the group is read as part of it, and both texts are accepted |
| `WireObject.Libp2pMesh.Dial` | crates/cluster-daemon/src/libp2p_transport.rs:417-423 | the address named is authorized and nothing else changes; the call is a run of the protocol |
| `WireObject.Libp2pMesh.Disconnect` | crates/cluster-daemon/src/libp2p_transport.rs:426-434 | the address named leaves the authorized and the connected and its disconnect is queued; lock section, then send |
| `WireObject.Libp2pMesh.TakeInbox` | crates/cluster-daemon/src/libp2p_transport.rs:454-459 | the whole inbox is handed over and emptied |
| `WireObject.Libp2pMesh.SweepExpired` | crates/cluster-daemon/src/libp2p_transport.rs:873-886 | every expired peer ends shut out and with all its connections closing; the loop is one sweep step per peer |
| `WireObject.Libp2pMesh.EvictPeers` | crates/cluster-daemon/src/libp2p_transport.rs:918-928 | every peer recorded under the address ends shut out and with all its connections closing, and no other is touched |
| `WireObject.Libp2pMesh.ReceiveCommand` | crates/cluster-daemon/src/libp2p_transport.rs:905-937 | the first command leaves the queue; if a disconnect, every peer recorded under its address is shut out and closing |
| `WireObject.Libp2pMesh.OnEstablished` | crates/cluster-daemon/src/libp2p_transport.rs:945-950 | one connection more; an unrecorded peer is shut out and awaited to identify |
| `WireObject.Libp2pMesh.OnIdentify` | crates/cluster-daemon/src/libp2p_transport.rs:951-979 | a peer whose own key resolves to an authorized address is recorded, let in and connected; any other is left unrecorded with all its connections closing; uninterrupted, three steps or one |
| `WireObject.Libp2pMesh.OnMessage` | crates/cluster-daemon/src/libp2p_transport.rs:980-1002 | a message on the group topic from a recorded, authorized source with a well-formed CID goes to the inbox under that source's address; any other changes nothing |
| `WireObject.Libp2pMesh.OnClosed` | crates/cluster-daemon/src/libp2p_transport.rs:1044-1059 | one connection less; with the last the peer is forgotten and its address leaves the connected |
| `WireLaws.StepKeepsInv` | crates/cluster-daemon/src/libp2p_transport.rs:842-1065 | each step keeps the inductive invariant |
| `WireLaws.RunsKeepInv` | crates/cluster-daemon/src/libp2p_transport.rs:842-1065 | so does every interleaving |
| `StepLaws.GateBits` | crates/cluster-daemon/src/libp2p_transport.rs:827-1059 | exactly which steps shut a peer out of the topic, and that only recording it lets it in |
| `StepLaws.Awaits` | crates/cluster-daemon/src/libp2p_transport.rs:873-1046 | a peer is awaited to identify from its first unrecorded connection until it identifies, is swept or is gone |
| `StepLaws.Records` | crates/cluster-daemon/src/libp2p_transport.rs:964-1055 | a peer is recorded under an address exactly from when it is let in under it until its last connection closes |
| `StepLaws.SharedSets` | crates/cluster-daemon/src/libp2p_transport.rs:417-1059 | an address is authorized from a dial to a disconnect, connected from its recording to a disconnect or a last connection's end, and the surface owes a disconnect from a deauthorization until it is sent |
| `StepLaws.LoopIs` | crates/cluster-daemon/src/libp2p_transport.rs:951-1059 | a peer is being admitted exactly from an identify whose key is its own and resolves to an address authorized at that moment |
| `WireLaws.LiveIsRecorded` | crates/cluster-daemon/src/libp2p_transport.rs:918-979 | in every run each live ungated peer is recorded under its key's address, which is authorized or has a disconnect queued or about to be sent |
| `WireLaws.StrangersAreClosing` | crates/cluster-daemon/src/libp2p_transport.rs:951-979 | every connection of a peer neither awaiting identify nor recorded has had its close requested |
| `WireLaws.ConnectedIsRecorded` | crates/cluster-daemon/src/libp2p_transport.rs:964-1059 | between iterations each connected address is held by a recorded peer, and is authorized, condemned, or that peer is gated |
| `WireLaws.ConnectedCanOutrunAuthorized` | crates/cluster-daemon/src/libp2p_transport.rs:964-973 | a run in which a connected address is not authorized, for any peer and address |
| `WireLaws.ConnectedEscapesExactly` | crates/cluster-daemon/src/libp2p_transport.rs:964-973 | a step takes connected outside authorized if and only if it records an address deauthorized since its check |
| `WireLaws.StepRefines` | formal/ClusterWireAdmission.tla:46-54 | each step is one atomic action or a stutter: connecting and falling as in the model cited, authorizing and deauthorizing one address at a time |
| `WireLaws.RunRefines` | formal/ClusterWireAdmission.tla:46-61 | every run is, step for step, a run of the atomic machine |
| `WireLaws.WireWithinAuthorized` | formal/ClusterWireAdmission.tla:66 | in every run the addresses on the wire are authorized |
| `WireLaws.RosterStepInParts` | formal/ClusterWireAdmission.tla:41-44 | deauthorizing whoever goes and authorizing whoever stays or comes is the whole-roster step |
| `EvictionLaws.EvictedStaysOff` | crates/cluster-daemon/src/libp2p_transport.rs:426-434 | an address disconnected and not dialed since has no live ungated peer but while a disconnect is on its way |
| `EvictionLaws.EvictionTakesHold` | crates/cluster-daemon/src/libp2p_transport.rs:905-928 | a sent disconnect has shut the address's peers out of the topic once the loop has received as many commands as were queued, whatever else happens short of a dial |
| `EvictionLaws.QueueIsFifo` | crates/cluster-daemon/src/libp2p_transport.rs:426-434 | the queue is what was sent less what was received, in order |
| `EvictionLaws.ReceivedHangsUp` | crates/cluster-daemon/src/libp2p_transport.rs:918-928 | a received disconnect asks every open connection of every recorded peer to close |
| `EvictionLaws.EvictionHangsUpExactly` | crates/cluster-daemon/src/libp2p_transport.rs:918-979 | once the last disconnect sent is received, until the address is dialed or disconnected again, all of the peer's connections are being closed if and only if those established since were closed, identified or swept (a count on the steps alone) |
| `EvictionLaws.NothingNewNothingLoose` | crates/cluster-daemon/src/libp2p_transport.rs:945-950 | in a run that establishes none since, every connection of the peer is being closed |
| `EvictionLaws.ReconnectedIsNotHungUp` | crates/cluster-daemon/src/libp2p_transport.rs:945-950 | from a state with one open connection, a run in which an evicted peer keeps a connection nothing has asked to close |
| `EvictionLaws.ReconnectedFromTheStart` | crates/cluster-daemon/src/libp2p_transport.rs:945-979 | such a run from the start, for any peer and address |
| `EvictionLaws.InboxConserved` | crates/cluster-daemon/src/libp2p_transport.rs:1238-1251 | in every run each drain returns exactly the first 1024 messages offered since the drain before, in order, and so does the inbox since the last: nothing is dropped unless the inbox is full; each message is a valid CID from a resolved address |
| `EvictionLaws.MessageReadExactly` | crates/cluster-daemon/src/libp2p_transport.rs:980-1002 | a read message is taken up if and only if it is on the group topic, from a recorded source whose address is authorized now, and a well-formed CID; it is that CID under that address, and any other changes nothing |
| `EvictionLaws.OfferedIsTaken` | crates/cluster-daemon/src/libp2p_transport.rs:980-1002 | in every run what is offered to the inbox is exactly what those reads took up, each once, in order |
| `EvictionLaws.NoLateMessages` | crates/cluster-daemon/src/libp2p_transport.rs:980-1002 | from deauthorization to the next dial the only message that can still be offered is one already past its check |
| `EvictionLaws.StrangersAreUnheard` | crates/cluster-daemon/src/libp2p_transport.rs:980-1002 | an address never dialed is never heard from |
| `DialTables.SwarmTables.RememberBootstrap` | crates/cluster-daemon/src/libp2p_transport.rs:1070-1078 | the re-dial list as specified |
| `DialTables.SwarmTables.RememberDiscovered` | crates/cluster-daemon/src/libp2p_transport.rs:1129-1146 | the table as specified; true exactly if it changed |
| `DialTables.SwarmTables.ForgetDiscovered` | crates/cluster-daemon/src/libp2p_transport.rs:1150-1161 | the record is dropped, and the peer with its last |
| `DialTables.SwarmTables.Discover` | crates/cluster-daemon/src/libp2p_transport.rs:1007-1018 | a batch of sightings, our own left out, each peer learned of reported once |
| `DialTables.SwarmTables.Expire` | crates/cluster-daemon/src/libp2p_transport.rs:1037-1041 | a batch of expiries |
| `DialTables.RunsStayBounded` | crates/cluster-daemon/src/libp2p_transport.rs:1070-1161 | after any events: at most 64 listed addresses; at most 256 found peers, never ourselves, each with 1 to 8 distinct addresses |
| `DialTables.SightedExactly` | crates/cluster-daemon/src/libp2p_transport.rs:1129-1146 | a sighting exactly: when it is news, where it goes, which address of nine goes, and that nothing else changes |
| `DialTables.ExpiredExactly` | crates/cluster-daemon/src/libp2p_transport.rs:1150-1161 | an expiry exactly: the one address goes, the others keep their places, a peer goes with its last, nothing else changes |
| `DialTables.LearnedExactly` | crates/cluster-daemon/src/libp2p_transport.rs:1007-1018 | a batch reports exactly the peers it told something new of, once each, in the order of their first news |
| `DialTables.RequestsSlide` | crates/cluster-daemon/src/libp2p_transport.rs:1070-1078 | requests for new addresses slide a window of the newest 64 |
| `DialTables.Standing` | crates/cluster-daemon/src/libp2p_transport.rs:1070-1078 | from any list, repeats included, and under any requests: the list is what it was, followed by what was inserted, less what is pushed out in front; asking again for a listed address does nothing |
| `DialTables.ListedSurvivesExactly` | crates/cluster-daemon/src/libp2p_transport.rs:1070-1078 | from any list and under any requests an address stays listed throughout if and only if no more is pushed out than stood before its last place |
| `DialTables.RequestedIsKept` | crates/cluster-daemon/src/libp2p_transport.rs:1070-1078 | an address newly listed stays until 64 more have been inserted |
| `DialTables.AskedAgainIsDropped` | crates/cluster-daemon/src/libp2p_transport.rs:1067-1078 | dialed again, the first address of a full list is gone with the next new one |
| `DialTables.NewestRequestListed` | crates/cluster-daemon/src/libp2p_transport.rs:1070-1078 | in every run the newest request is listed |
| `DialTables.RedialsWhatIsDue` | crates/cluster-daemon/src/libp2p_transport.rs:1109-1123 | a tick re-dials only listed addresses, at most 16 and all of them if fewer, whose peer is not connected, or that name none while nobody is admitted |
| `DialTables.RedialsInOrder` | crates/cluster-daemon/src/libp2p_transport.rs:1109-1123 | and they are all that is due of some beginning of the list, in its order |
| `DialTables.DialsTheLeast` | crates/cluster-daemon/src/libp2p_transport.rs:1165-1178 | a tick's discovery targets are the PeerId-least 16 of the found peers that are not connected and whose address is authorized, in order, with the addresses found for them |
| `EndToEnd.SurfaceMirrors` | crates/cluster-daemon/src/libp2p_transport.rs:414-442 | whatever the swarm task does in between, the concurrent authorized set is what the surface calls alone give |
| `EndToEnd.RosterCallsApply` | crates/cluster-daemon/src/lib.rs:361-378 | the calls applying a roster makes, as a sequence |
| `EndToEnd.CallsSinceAuthorize` | crates/cluster-daemon/src/lib.rs:361-378 | along every daemon run a session's authorized set is what the calls since its start amount to |
| `EndToEnd.CallsSinceQueue` | crates/cluster-daemon/src/libp2p_transport.rs:426-434 | and the disconnects in its queue are exactly those its calls since then dropped, in order |
| `EndToEnd.EvictionsAreSent` | crates/cluster-daemon/src/libp2p_transport.rs:426-434 | along any interleaving the disconnects sent to the swarm task, with the one about to be, are exactly those of the surface's calls, in order |
| `EndToEnd.EvictionsReachTheTask` | crates/cluster-daemon/src/lib.rs:361-378 | for any daemon run and any interleaving the swarm task is sent exactly the disconnects the session queued, in order |
| `EndToEnd.MeshWithinGate` | formal/ClusterWireAdmission.tla:63-66 | for any daemon run and any interleaving of its calls with the swarm task, authorized equals allowed unless a peer of the group was dropped, and whoever is on the wire is in the gate of the stored roster and registry |
| `EndToEnd.MidEvent` | crates/cluster-daemon/src/lib.rs:361-378 | in the middle of an event, some of its calls made, the authorized set is wholly within what was allowed before it or wholly within what is allowed after it |
| `EndToEnd.MeshWithinGates` | crates/cluster-daemon/src/lib.rs:361-378 | so at every moment the wire is wholly within the gate before the event or wholly within the gate after it |
| `EndToEnd.RosterCallsWhole` | crates/cluster-daemon/src/lib.rs:361-378 | the calls that apply a roster drop before they allow, so cut off anywhere they leave one set or the other as bound |
| `EndToEnd.MessagesAreFromTheGate` | crates/cluster-daemon/src/libp2p_transport.rs:980-1002 | every message that passes its check, at whatever moment, carries the address its source's key resolves to, and that address is in the gate before or after the event under way |
| `EndToEnd.RosterIsOneStep` | formal/ClusterWireAdmission.tla:41-44 | the calls that apply a roster, as atomic actions, can all be taken and are the whole-roster step |
| `EndToEnd.CallIsAction` | crates/cluster-daemon/src/libp2p_transport.rs:414-434 | a call is the atomic action of the step that makes it |
| `EndToEnd.RevokedNeverMeshed` | formal/DeviceLink.tla:203-215 | a member with an accepted revocation is never meshed under its own address while on the roster, in any later state, in the middle of any event and in any interleaving, but while its disconnect is on its way |

## Left out

- secp256k1 recovery, Keccak, EIP-191 digests and PeerId encoding: any verifier and any peer-to-address function.
- Noise, yamux, gossipsub scoring, mDNS packets, connection limits and the swarm's own scheduling: only the events the loop sees, connection counts and the gate bits.
- Timers: when a sweep, a re-dial or an `identify` timeout fires is unconstrained, so a peer may be swept at any time while it is unidentified.
- A poisoned mutex or a closed command channel: lock sections and sends always succeed.
- The dial the swarm task makes in the discovery arm for peers just found, and multiaddr parsing: `parses` and `Multiaddr` stand for them.
- The dial tables are not coupled to the protocol state: dialing admits nobody, so the connected and authorized sets are parameters of `DialsTheLeast`.
- Interleaving inside the methods of `WireObject`: each is one arm run through; what the other thread may do between its lock sections is covered by the steps of `Wire`.
- The atomicity of the sweep and of a discovery event within the loop: expired peers are swept one per step, which allows more interleavings than the code has.
- Whether a re-dial ever succeeds: the first 16 due addresses are taken each tick, so no fairness follows.
- The socket server, peer credentials, file permissions, secret handling and zeroization: operating-system calls.
- Environment parsing, listen-port choice and `seed_addrs_from`: `listening` is whatever the transport reports.
- JSON shapes, error texts and the `online` flags added for clients: errors are an enumeration, answers are values.
- `is_revoked`, `links`, `revocations`, `allowed_peers` and other one-line accessors: easy members.
- `deliver` on the single-node transport: the network may put anything in an inbox.
- Rust's stable sort is modelled by insertion, for links, roster pairs and device views; `sort` on strings by the sorted listing of a set.
- Eventual agreement between machines whose batches differ: the registry only promises that equal batches in any order agree.
