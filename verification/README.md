# A verified model of TNP

TNP is a naming system with an overlay transport: names are owned by domain
keys, served by nodes that attach to relays, reached through encrypted circuits,
and, for the VPN, routed through WireGuard exits. Its hard logic sits in small
state machines and verifiers. This project models those in Dafny and proves
what they promise, over all inputs and all runs.

Each module follows one source file. Where the source is a set of expressions,
the model is functions and lemmas. Where it updates fields or fills buffers, the
model has a class or a loop, and its contract ties each method to a function on
values: usually `Step`, one event of a state machine. The main theorems are about
`Run`, any sequence of events, so they hold of every run of the class.

| file | what it models |
|---|---|
| `ServiceNode.dfy` | the connection machine of a service node |
| `Scope.dfy`, `Grants.dfy`, `GrantChains.dfy`, `KeyAgreement.dfy`, `DomainKey.dfy`, `Pins.dfy` | names, grants, chains, certificates, key rotations and the marks that refuse superseded grants |
| `Bytes.dfy`, `Text.dfy`, `Encoding.dfy`, `SignedStatements.dfy` | byte strings, JavaScript text and UTF-8, base64, the canonical encoding, and all eight signed statements |
| `RelayDirectory.dfy`, `DirectoryClient.dfy` | the signed relay directory and the client that keeps it |
| `Reconcile.dfy`, `Conntrack.dfy`, `ExitAgent.dfy`, `TrafficCap.dfy` | a VPN exit: peers, flows, the fail-closed loop, traffic accounting |
| `KillSwitch.dfy` | one DNS policy compiled to four firewalls |
| `RulesStore.dfy` | personal DNS rules with local approval |
| `Wrappers.dfy`, `Sequences.dfy` | options, results and facts about sequences that several modules share |
| `Noise.dfy`, `FlowControl.dfy`, `CircuitTable.dfy`, `RelayLink.dfy`, `LinkSlots.dfy`, `Frame.dfy`, `Overlay.dfy`, `Socks.dfy` | the transport |

`dafny verify dfyconfig.toml` checks everything. Nothing here executes the
original program.

## What is assumed

- Signature verification, hashes, key derivation, X25519 and the AEAD are
  functions of unknown value, passed as parameters. The only laws used are that
  Diffie-Hellman commutes, that opening inverts sealing, that public keys have 32
  bytes (all three only for `Noise.HonestExchange`), and that a UTF-8 decoder
  inverts the encoder after dropping a byte order mark (`Overlay`, `Frame`).
- Input from outside (frames, clocks, random ids, results of commands, failures)
  is a parameter of each event, with no restriction beyond what each theorem says.
- Closing a `FrameSocket` runs its close handler at once and no frame follows a
  close, as packages/client/src/overlay/frame-socket.ts does it. A relay link's
  proof and the continuation that adds the link to its slot are one event.
- Integers are unbounded. Widths matter only where stores truncate and where
  JavaScript's bitwise operators see 32 bits, and both are written out.

## Where the code does not do what it says

Each is stated as a lemma with a concrete input, and the condition under which
the promise does hold is proved beside it.

- A service node does not fail over when opening the socket throws
  (`ServiceNode.OpenFailureKeepsCandidate`, `ServiceNode.AttemptMovesOnIff`).
- A failed merge of directory state can let a client's serials decrease even within
  one process (`DirectoryClient.FailedMergeCounterexample`,
  `DirectoryClient.FailedMergeIff`).
- Endpoints with lone surrogates make two directories sign alike
  (`RelayDirectory.DirectoryBytesCollide`, `RelayDirectory.DirectoryBytesEqualIff`).
- The rotation walk is greedy and can miss a key on a forked history
  (`DomainKey.ForkedHistoryCounterexample`, `DomainKey.WalkExact`,
  `DomainKey.WalkExactIff`).
- The peer plan is not always the smallest (`Reconcile.NotSmallestExample`,
  `Reconcile.TwoForThreeExample`, `Reconcile.PlanSmallestIff`).
- An address that moves between two listed peers keeps its old flows, and a deletion
  that fails or is never reached is not tried again, even where another peer has the
  address by then (`Conntrack.TradedAddressKeepsFlows`, `Conntrack.FlowsEndIff`,
  `Conntrack.SkippedDeletionExample`, `Conntrack.InheritedFlowsExample`,
  `Conntrack.SkippedDeletionIff`).
- An exit can report `flushed` with peers on the interface after a sync whose commands
  failed with peers already added (`ExitAgent.FlushedCounterexample`, `ExitAgent.FlushedHonestIff`).
- The warning at four fifths of the cap can be logged twice in a month, after a save
  that failed and a restart, or when the clock goes back (`TrafficCap.SecondWarning`,
  `TrafficCap.ClockBackWarnsAgain`, `TrafficCap.WarningStep`).
- Bytes that were seen are lost when a save fails and the machine reboots, and, without
  a reboot, when the agent restarts before any save succeeded or cannot read the state
  file (`TrafficCap.SeenBytesLost`, `TrafficCap.CountBeginsAgain`,
  `TrafficCap.RestartLosesIff`).
- A throttle can outlive its month when nft reports an error after taking effect
  (`TrafficCap.StuckThrottle`, `TrafficCap.ThrottleMatchesIff`).
- A grant beyond what a stream has outstanding lets the streams exceed the circuit
  window (`FlowControl.OverGrantBreaksCeiling`, `FlowControl.CeilingIff`).
- A relay link is never closed for being idle when its only circuit fails key
  confirmation, or when a certificate expires just before a circuit is opened on it
  while it is empty (`RelayLink.IdleForGood`, `RelayLink.TimerLostForGood`,
  `RelayLink.RetiringIff`).
- A directory re-check can drop a link from its slot without closing it
  (`LinkSlots.OrphanedConnections`, `LinkSlots.TrackedIff`).
- `encodeFrame` accepts flag words that are multiples of 2^32 and sends zero
  (`Frame.LargeFlagsCounterexample`, `Frame.FrameRoundTripIff`).
- `decodeCircuitCreate` accepts a byte order mark before the name
  (`Overlay.CreateNotCanonical`, `Overlay.CreateCanonicalIff`).

## Model

| member | source | states |
|---|---|---|
| `ServiceNode.RunInv` | packages/client/src/service-node.ts:349-591 | In every reachable state: every connection so far sent AUTH at most once, with a challenge that connection delivered, to the endpoint it dialed, and for a relay with a listed key only after a valid proof of that key; serving and conflict only after AUTH; the candidate index is in range; and, unless stopped or paused, exactly one of an open socket and a pending reconnect timer exists |
| `ServiceNode.StepInv` | packages/client/src/service-node.ts:402-591 | Each single event (frame, close, timer, refresh, handshake timeout, stop) keeps all of that |
| `ServiceNode.RunExplained` | packages/client/src/service-node.ts:436-591 | In every run every connection did exactly what its frames ask for: the challenge of its first HELLO is recorded; AUTH went out if and only if a challenge and, for a relay with a listed key, a valid proof came, in either order; it served if and only if AUTH_OK came after that; it met a conflict if and only if ALREADY_REGISTERED came in between; and the open connection is serving exactly then |
| `ServiceNode.FrameExplained` | packages/client/src/service-node.ts:436-552 | A frame keeps that, and closes the connection if and only if it is a first HELLO without a challenge, or anything but PING, HELLO and a valid HELLO_ACK where a proof is due |
| `ServiceNode.EndsAndWaits` | packages/client/src/service-node.ts:314-419 | An open connection that ends is closed and the reconnect timer is pending; the handshake timer ends it exactly while it is not served; stopping ends it with no timer |
| `ServiceNode.StoppedForGood` | packages/client/src/service-node.ts:314-324 | No event changes anything on a stopped node |
| `ServiceNode.MaybeAuthenticateInv` | packages/client/src/service-node.ts:572-591 | Sending AUTH keeps the invariant: the candidate the index points at is the one the open connection dialed |
| `ServiceNode.UnprovenFailsOver` | packages/client/src/service-node.ts:436-527 | A relay that has not proved its listed key cannot suppress fail-over: its connection ends as a failure and the index advances |
| `ServiceNode.FailOverVisitsAll` | packages/client/src/service-node.ts:402-419 | In any run the next dial of the same list is of the next candidate after a connection that neither served nor met a conflict, and of the same one otherwise; so n consecutive such connections from a list of n with no refresh between them dial every one of the n candidates |
| `ServiceNode.RefreshKeepsCandidate` | packages/client/src/service-node.ts:266-306 | A refresh that still lists the current candidate points at the same endpoint and key in the new list and leaves an open connection alone |
| `ServiceNode.RefreshLeavesDelisted` | packages/client/src/service-node.ts:266-306 | A refresh that no longer lists it closes the connection and moves to the first new candidate; an empty one detaches and pauses the node |
| `ServiceNode.OpenFailureKeepsCandidate` | packages/client/src/service-node.ts:349-381 | When opening the socket throws there is no fail-over: after any number of such failures the node is still at its first candidate and has dialed nobody, although the options promise fail-over on connect failure |
| `ServiceNode.AttemptMovesOnIff` | packages/client/src/service-node.ts:349-419 | From any reachable waiting state with several candidates, an attempt that ends without an answer moves to the next candidate if and only if its socket could be opened |
| `ServiceNode.ServiceNodeMachine.OnFrameArrived` | packages/client/src/service-node.ts:436-552 | The frame handler on the fields is the frame step of the machine and keeps the invariant |
| `ServiceNode.ServiceNodeMachine.OnRelayClosed` | packages/client/src/service-node.ts:402-419 | The close handler on the fields is the close step: fail over unless served or conflicting, then schedule |
| `ServiceNode.ServiceNodeMachine.SocketEnded` | packages/client/src/service-node.ts:402-419 | A socket that ends, at any moment, is the close step and keeps the invariant |
| `ServiceNode.ServiceNodeMachine.HandshakeTimerFires` | packages/client/src/service-node.ts:386-394 | The handshake timer gives up a connection that is not serving, and keeps the invariant |
| `ServiceNode.ServiceNodeMachine.ConnectNow` | packages/client/src/service-node.ts:349-400 | Dialing resets everything the previous connection established |
| `ServiceNode.ServiceNodeMachine.RefreshRelays` | packages/client/src/service-node.ts:266-306 | The refresh on the fields is the refresh step and keeps the invariant |
| `ServiceNode.ServiceNodeMachine.MaybeSendAuth` | packages/client/src/service-node.ts:572-591 | AUTH goes out if and only if verified, with a challenge and not yet sent, and names the current endpoint |
| `ServiceNode.ServiceNodeMachine.StopRunning` | packages/client/src/service-node.ts:314-324 | Stopping closes the socket, clears the timer and keeps the invariant |
| `Scope.CoversIffLabelSuffix` | packages/crypto/src/scope.ts:40-43 | The string test for "this name or a subdomain of it" is exactly the suffix order on label lists |
| `Scope.CoversTransitive` | packages/crypto/src/scope.ts:40-43 | That order is transitive |
| `Scope.CoversForest` | packages/crypto/src/scope.ts:40-43 | Two names that cover a third are comparable |
| `Text.OnlySpellingIff` | packages/crypto/src/encoding.ts:166-174 | A string is the only one with its UTF-8 bytes if and only if it is well-formed UTF-16 and does not contain U+FFFD |
| `Text.TruncateUtf8` | packages/protocol/src/frame.ts:266-274 | The longest prefix of the encoding within the byte limit that ends on a character boundary |
| `Encoding.EncodeBase64` | packages/crypto/src/encoding.ts:43-60 | The loop computes the block encoding of section 4 of RFC 4648 |
| `Encoding.DecodeBase64Strict` | packages/crypto/src/encoding.ts:70-98 | Accepts exactly the encodings (canonical in the sense of section 3.5 of RFC 4648), returns the bytes encoded, and enforces the expected length |
| `Encoding.Base64Injective` | packages/crypto/src/encoding.ts:43-98 | Two byte strings never share an encoding |
| `Encoding.CanonicalInjective` | packages/crypto/src/encoding.ts:166-201 | Field lists of one shape with equal canonical bytes are equal, whatever their lengths and contents |
| `Encoding.ContextSeparates` | packages/crypto/src/encoding.ts:166-201 | Encodings that begin with different context tags never coincide |
| `Encoding.ConcatBytes` | packages/crypto/src/encoding.ts:203-212 | One buffer holding the parts in order |
| `Encoding.CanonicalWriter.BytesPrefixed` | packages/crypto/src/encoding.ts:175-180 | Appends one length-prefixed field to what the writer encodes |
| `Encoding.CanonicalWriter.Uint` | packages/crypto/src/encoding.ts:190-196 | Appends an 8-byte integer, or refuses one that is not a safe integer and appends nothing |
| `Encoding.CanonicalWriter.Finish` | packages/crypto/src/encoding.ts:198-200 | The bytes are the canonical encoding of the fields written, in order |
| `Grants.ParseUnsigned` | packages/crypto/src/grants.ts:205-275 | Accepts a wire grant exactly when it has a reading, and returns that reading |
| `Grants.ReadsUnique` | packages/crypto/src/grants.ts:205-275 | A wire grant has at most one reading |
| `Grants.GrantBytesEqualIff` | packages/crypto/src/grants.ts:277-293 | Two grants have equal signed bytes if and only if they are equal up to the order of purposes |
| `GrantChains.VerifyChainCore` | packages/crypto/src/grants.ts:373-497 | Malformed and too long chains are refused; any other is verified if and only if it is authorized (next row), with the data of its leaf |
| `GrantChains.AcceptedIff` | packages/crypto/src/grants.ts:373-497 | A chain is accepted if and only if every link is genuine, inside its half-open window, unrevoked and not below its mark; each pair connects, delegates, narrows purposes and window, and the upper scope is absent or a label suffix of the lower; all keys are distinct, the root is trusted and the leaf has the purpose |
| `GrantChains.VerdictExact` | packages/crypto/src/grants.ts:373-497 | For an authorized chain the verdict carries the purposes, subject, scope and window of its leaf and the serial of every link; otherwise its reason is a defect of the first link that has one, or, if none has, of the whole chain |
| `GrantChains.ChainNarrows` | packages/crypto/src/grants.ts:373-497 | In an accepted chain every lower grant has purposes, window and scope within those of every grant above it, although only neighbours are compared |
| `GrantChains.ChainAuthority` | packages/crypto/src/grants.ts:373-497 | Every link is signed by its issuer and holds the required purpose, every link above the leaf delegates and links up, keys are distinct, the root is trusted |
| `GrantChains.AcceptanceWindow` | packages/crypto/src/grants.ts:373-497 | With the other options fixed an accepted chain is accepted at another time exactly when that time is in the leaf's half-open window |
| `GrantChains.RevocationExact` | packages/crypto/src/grants.ts:373-497 | Revoking further keys refuses an accepted chain exactly when one of them is in it |
| `GrantChains.RollbackExact` | packages/crypto/src/grants.ts:373-497 | Other serial marks refuse an accepted chain exactly when one of its grants is below its mark |
| `GrantChains.ScopedVerdict` | packages/crypto/src/grants.ts:509-530 | Verified if and only if the chain is, a scoped purpose comes with a requested name, and a requested name is valid and equals the leaf's scope; a rejection is the chain's own, or a scope reason that is true |
| `KeyAgreement.CertificateBytesInjective` | packages/crypto/src/key-agreement.ts:161-172 | Equal signed bytes mean equal certificates |
| `KeyAgreement.CertificateAcceptedIff` | packages/crypto/src/key-agreement.ts:268-349 | A certificate is accepted if and only if its chain is authorized, it is for the role, signed by the chain's subject, genuine, inside its own window and that within the leaf's, its scope is the requested name and within the leaf's, its key is not revoked and its serial is not below its mark |
| `KeyAgreement.CertificateReason` | packages/crypto/src/key-agreement.ts:268-349 | When the chain is authorized and the certificate refused, the reason is a defect it really has |
| `KeyAgreement.CertificateWithinChain` | packages/crypto/src/key-agreement.ts:268-349 | An accepted certificate is within every link of its chain: purpose, window, scope, and no revoked key anywhere |
| `KeyAgreement.CertificateWindow` | packages/crypto/src/key-agreement.ts:268-349 | Its acceptance over time is exactly its own half-open window |
| `KeyAgreement.CertificateRollbackExact` | packages/crypto/src/key-agreement.ts:268-349 | Serial marks refuse, beyond everything else, exactly a certificate or chain with a serial below its mark |
| `DomainKey.RotationBytesInjective` | packages/crypto/src/domain-key.ts:111-119 | Equal signed bytes mean equal rotations |
| `DomainKey.FollowDomainKeyRotations` | packages/crypto/src/domain-key.ts:192-222 | The loop computes the greedy walk; a history beyond the limit fails unless the keys are already equal |
| `DomainKey.WalkSound` | packages/crypto/src/domain-key.ts:145-222 | Success in n steps is an index-increasing, time-increasing selection of n genuine statements linking the pinned key to the presented one |
| `DomainKey.WalkExact` | packages/crypto/src/domain-key.ts:192-222 | When no later genuine statement could have continued the walk from a key on its own line instead, up to the presented key, it succeeds if and only if such a selection exists; forks elsewhere do not matter |
| `DomainKey.UnforkedNoFork` | packages/crypto/src/domain-key.ts:192-222 | The condition a caller can check on the history alone: where no two genuine statements retire the same key there is no fork on the line of any walk |
| `DomainKey.WalkExactIff` | packages/crypto/src/domain-key.ts:192-222 | Where every rotation is to a new key: the walk finds every reachable key if and only if there is no fork on its line |
| `DomainKey.ForkedHistoryCounterexample` | packages/crypto/src/domain-key.ts:192-222 | On a forked history the walk can miss a key: two genuine statements, for a valid name and with signatures that verify, retire one key, and the walk follows the first |
| `Pins.RaiseSerials` | packages/client/src/overlay/pins.ts:46-58 | The loop raises each mark in turn and keeps the 256 raised last |
| `Pins.MarkKeptIff` | packages/client/src/overlay/pins.ts:42-58 | Over every run of contacts, rotations and forgetting: a mark is kept if and only if its key was raised under the current pin and fewer than 256 other keys have been raised since it last was |
| `Pins.MarkHolds` | packages/client/src/overlay/pins.ts:1-17 | While that is so, the mark is at least every serial the key was accepted with |
| `Pins.MarkIsSerial` | packages/client/src/overlay/pins.ts:42-58 | And it is no more: every mark is a serial of a contact accepted under the current pin and domain key |
| `Pins.SupersededRefused` | packages/client/src/overlay/verify.ts:106-181 | So a contact that presents a superseded grant or certificate is refused |
| `Pins.SupersededRefusedIff` | packages/client/src/overlay/pins.ts:1-17 | Until its key is named again, a superseded serial is refused if and only if fewer than 256 other keys have been raised since |
| `Pins.OfferAcceptedIff` | packages/client/src/overlay/verify.ts:106-181 | The verifier under the pin's marks accepts an offer exactly when its contact is accepted: rotations lead to its key, the certificate verifies, and no serial is below its mark |
| `Pins.PinIsLastAccepted` | packages/client/src/overlay/verify.ts:106-181 | Over every run there is a pin exactly after an accepted contact that was not forgotten since, and it is for the domain key of the last |
| `Pins.PinInLine` | packages/client/src/overlay/pins.ts:1-12 | Whatever the registry answers, over every life of a pin, the key it holds comes from the key pinned on first use by genuine rotations, each signed by the key it retires |
| `Pins.PinEntry.Meet` | packages/client/src/overlay/verify.ts:106-181 | The decision on the pin on disk, with the rotation walk and the certificate verifier under the pin's marks, is the contact step and keeps the invariant; a new domain key starts without marks |
| `RelayDirectory.EncodeDirectory` | packages/crypto/src/relay-directory.ts:273-292 | The writer loops produce the canonical bytes of the directory |
| `RelayDirectory.DirectoryBytesEqualIff` | packages/crypto/src/relay-directory.ts:273-292 | Two accepted directories, with any numbers of relays and capabilities, have equal bytes if and only if they differ at most in lone surrogates of endpoints |
| `RelayDirectory.DirectoryBytesInjective` | packages/crypto/src/relay-directory.ts:235-292 | On well-formed endpoints the encoding is injective |
| `RelayDirectory.DirectoryBytesCollide` | packages/crypto/src/relay-directory.ts:184-194 | Without that it is not: two accepted directories with one encoding |
| `RelayDirectory.FindSigner` | packages/crypto/src/relay-directory.ts:374-421 | The first pinned key that verifies, if any |
| `RelayDirectory.VerifyDirectory` | packages/crypto/src/relay-directory.ts:374-421 | Valid if and only if the document is acceptable and within the size limit, verifies under some pinned key, is issued at most 600 s ahead of the clock, unexpired and not below the minimum serial; the signer returned is a pinned key under which it verifies |
| `RelayDirectory.RefusalOverTime` | packages/crypto/src/relay-directory.ts:374-421 | A document valid at one time is, at any other, valid with the same signer, not yet valid exactly before its window and expired exactly from its end |
| `SignedStatements.KindsNeverCollide` | packages/crypto/src/service-auth.ts:54-76 | No signed bytes under one of the eight context tags equal bytes under another |
| `SignedStatements.SignedBytesEqualIff` | packages/crypto/src/relay-directory.ts:436-576 | Any two statements the encoders accept are signed as the same bytes if and only if they are the same statement, up to the order of purposes and lone surrogates in endpoints |
| `SignedStatements.SignedBytesUnambiguous` | packages/crypto/src/relay-directory.ts:436-576 | Where endpoints are well-formed text, signed bytes determine the statement: grant (up to purpose order), certificate, rotation, directory, relay identity, registry proof, relay binding or service AUTH |
| `DirectoryClient.PinnedJudgeLawful` | packages/crypto/src/relay-directory.ts:374-421 | For any pinned keys the verifier attributes a document to one key whatever the time, and bounds its serial by the clock plus 600 |
| `DirectoryClient.MarksAreMaxima` | packages/client/src/relay-directory.ts:58-67 | Any sequence of merges by any processes leaves every mark at the largest value merged |
| `DirectoryClient.NewestDocument` | packages/client/src/relay-directory.ts:58-67 | And leaves the document issued last, of those issued together the one merged last; none only if there never was one |
| `DirectoryClient.RefreshAnswers` | packages/client/src/relay-directory.ts:246-303 | A refresh answers if and only if the fetched, the held or the stored document is valid now and not below the mark of its key, as loaded and as held; it answers with the first of these in that order and holds it from then on; what was fetched, and nothing else, is merged into the store with its serial; with none, nothing changes |
| `DirectoryClient.OfflineAnswers` | packages/client/src/relay-directory.ts:246-288 | After a restart with no network the stored document is returned exactly while it is valid and not below the stored mark of its key |
| `DirectoryClient.SerialsNeverDecrease` | packages/client/src/relay-directory.ts:189-303 | The serials one client returns for a key never decrease, over all fetches, refusals, cache fallbacks, restarts, merges of other processes and failed merges that the store already covers |
| `DirectoryClient.FailedMergeIff` | packages/client/src/relay-directory.ts:290-303 | A failed merge leaves every later run monotone if and only if the store has a mark at least as high for that key; otherwise a restart and any valid document in between take the serials back |
| `DirectoryClient.FailedMergeCounterexample` | packages/client/src/relay-directory.ts:290-303 | With two pinned keys and the code's own verifier: a failed merge, then a document of the other key, then an older one of the first, and the serials decrease within one process, although the code says only protection across restarts is lost |
| `DirectoryClient.MarksBounded` | packages/client/src/relay-directory.ts:246-303 | Every mark is at most the largest accepting clock plus 600 |
| `DirectoryClient.NoLockout` | packages/client/src/relay-directory.ts:233-303 | So a valid document numbered at or past that bound is never refused as rolled back |
| `DirectoryClient.RelayDirectoryClient.Get` | packages/client/src/relay-directory.ts:189-205 | Returns the held directory if and only if it is fresh and unexpired; otherwise, where the state can be read, one refresh is under way: the one before, or one that loads the store now |
| `DirectoryClient.RelayDirectoryClient.FinishRefresh` | packages/client/src/relay-directory.ts:246-288 | Returns the first good document of the fetched, the held and the stored one, if any, and holds it with its signing key from now on |
| `DirectoryClient.FindPassing` | packages/client/src/relay-directory.ts:276-286 | The first cached document that verifies now and is not rolled back |
| `Reconcile.PlanPeerChanges` | apps/exit/src/reconcile.ts:68-81 | Returns a plan, and running it on the interface read gives exactly the table the list asks for |
| `Reconcile.PlanReaches` | apps/exit/src/reconcile.ts:63-81 | On a table where setting an address takes it from any other peer, every plan ends in exactly the desired table, from any table at all |
| `Reconcile.InterruptedPlanResumes` | apps/exit/src/reconcile.ts:63-81 | A run cut short anywhere is resumed, not started over: the next plan touches only peers the first had not reached, has at most the remaining changes, and ends in the desired table |
| `Reconcile.RightPeersUndisturbed` | apps/exit/src/reconcile.ts:63-81 | A peer already right keeps all its addresses at every point of the run |
| `Reconcile.UnwantedGoFirst` | apps/exit/src/reconcile.ts:63-81 | After the removals only wanted keys are on the interface |
| `Reconcile.ReplanIsEmpty` | apps/exit/src/reconcile.ts:68-81 | Planning from the desired table gives no change |
| `Reconcile.JoinedEqualIff` | apps/exit/src/reconcile.ts:75-79 | Comparing comma-joined sorted lists compares the sets of addresses |
| `Reconcile.PlanSmallestIff` | apps/exit/src/reconcile.ts:1-9 | Among all sequences of `wg set` operations that reach the desired table the plan is a smallest if and only if no peer has all it should plus only addresses that others are to get, and at most one peer has all it should plus an address for nobody, or two do and nothing else changes |
| `Reconcile.NotSmallestExample` | apps/exit/src/reconcile.ts:1-9 | So the promise of the smallest set fails: a two-change plan where one suffices |
| `Reconcile.TwoForThreeExample` | apps/exit/src/reconcile.ts:1-9 | And a three-change plan where two suffice: one peer first takes what the others must lose |
| `Reconcile.AllowedIpsFor` | apps/exit/src/reconcile.ts:59-61 | Exactly the two host prefixes, sorted |
| `Reconcile.WantedExact` | apps/exit/src/reconcile.ts:59-81 | The table asked for has exactly the keys of the list, each with the two host prefixes of its last row |
| `Reconcile.WgSetCommands` | apps/exit/src/reconcile.ts:88-110 | Batches of 1 to 100 clauses in order, with the effect of the whole plan on every table |
| `Conntrack.ConntrackCommands` | apps/exit/src/agent.ts:68-80 | One deletion per host address of each removed peer |
| `Conntrack.RemovedPeersFlowsEnd` | apps/exit/src/agent.ts:82-90 | With any traffic during a successful round, no flow is left from an address that a removed peer held and nobody holds now |
| `Conntrack.FlowsEndIff` | apps/exit/src/agent.ts:68-80 | The flows of a prefix are deleted if and only if it is a single host and the peer that held it is no longer listed |
| `Conntrack.TradedAddressKeepsFlows` | apps/exit/src/agent.ts:1-8 | So a later holder can inherit flows: two listed peers that trade addresses |
| `Conntrack.HoldersAfter` | apps/exit/src/agent.ts:82-90 | Who holds an address when a round ends after any number of clauses: the listed peer it was given to so far, else the peer that had it unless that was touched |
| `Conntrack.SkippedDeletionIff` | apps/exit/src/agent.ts:82-104 | After a round that ended early anywhere, in its wg commands or its deletions, the next one, for any list, deletes the flows of an address if and only if it is a single host and: where the first round had given it to a listed peer, that peer is no longer listed; otherwise, the peer that held it had not been touched and is not listed |
| `Conntrack.SkippedDeletionExample` | apps/exit/src/agent.ts:82-104 | A run of it: wg reports a failure after its one removal, the flows are not deleted, and the next round has nothing to do |
| `Conntrack.InheritedFlowsExample` | apps/exit/src/agent.ts:1-8 | Another: one peer is removed, another gets its address, wg then reports a failure; nothing is left to do, and the new holder has the old flows |
| `Conntrack.FailedDeletionNotRetried` | apps/exit/src/agent.ts:92-104 | In particular, when all wg commands took effect and a deletion failed, the next round deletes nothing |
| `ExitAgent.ParseRows` | packages/shared-types/src/vpn.ts:406-433 | The loop keeps exactly the usable rows that claim no key or address already kept, and counts the rest |
| `ExitAgent.KeptDistinct` | packages/shared-types/src/vpn.ts:406-433 | No two kept rows share a key or an address, and each is a row of the list |
| `ExitAgent.FirstClaimantKept` | packages/shared-types/src/vpn.ts:398-404 | A usable row is dropped only for an earlier claimant of its key or address |
| `ExitAgent.KeptExact` | packages/shared-types/src/vpn.ts:398-433 | A row is kept if and only if it parses, its IPv6 address is the one of its IPv4 address, and no kept row before it has its key or its address |
| `ExitAgent.WantedDisjoint` | packages/shared-types/src/vpn.ts:406-433 | So what the list asks for never gives one address to two keys |
| `ExitAgent.TickFailsClosed` | apps/exit/src/agent.ts:242-286 | What one tick does when wg and conntrack succeed: the list just fetched, or unchanged and not stale, or empty |
| `ExitAgent.TickExact` | apps/exit/src/agent.ts:242-286 | And exactly when: a list of at most 65533 rows puts its kept rows on the interface, each key with its two host prefixes, and nothing else, and counts as success; otherwise a refusal, or more than maxStaleMs since the last success or the start, empties it; otherwise it is left alone; both count as a failure |
| `ExitAgent.FailsClosed` | apps/exit/src/agent.ts:242-319 | Over every such run: after each tick the interface is empty, or the list of the last successful tick at most maxStaleMs ago, or the initial table within maxStaleMs of the start; and flushed implies empty |
| `ExitAgent.RefusalEmpties` | apps/exit/src/agent.ts:242-286 | A refusal empties the interface in that tick |
| `ExitAgent.CutShortEmptyIff` | apps/exit/src/agent.ts:82-104 | A sync cut short after any number of clauses leaves the interface empty if and only if it removed every peer, none of them listed, and added none |
| `ExitAgent.StopsServingCovers` | apps/exit/src/agent.ts:242-286 | The failing ticks of the machine that must stop serving are exactly those of the next row |
| `ExitAgent.StopsServingIff` | apps/exit/src/agent.ts:242-286 | When commands may fail too: any tick that fails and must stop serving, refused, unreadable or stale after a sync that failed half way, leaves the interface empty if and only if the sync left it so, or it could be read again and every removal of what the sync left was made; and exactly when the sync leaves it empty |
| `ExitAgent.FlushedHonestIff` | apps/exit/src/agent.ts:242-319 | For every tick: `flushed` still implies an empty interface afterwards if and only if it is not a listed tick, after a flush, whose commands report a failure with peers added, some or all, and not all of them removed again in that tick |
| `ExitAgent.FlushedHonestRun` | apps/exit/src/agent.ts:242-319 | Over every run, whatever fails: the status is honest throughout if and only if no tick is of that kind |
| `ExitAgent.FlushedCounterexample` | apps/exit/src/agent.ts:304-319 | A run that ends with status flushed and peers on the interface |
| `ExitAgent.Agent.ApplyChanges` | apps/exit/src/agent.ts:82-90 | The commands one after the other, stopping at the first failure, with the clauses before it in effect |
| `ExitAgent.Agent.DoTick` | apps/exit/src/agent.ts:242-286 | The tick on the fields is the step of the machine |
| `ExitAgent.Agent.ReportHealth` | apps/exit/src/agent.ts:304-319 | flushed, starting and ok in exactly their cases |
| `TrafficCap.MonthsAddUp` | apps/exit/src/traffic-cap.ts:117-143 | The totals of closed months and the current month add up to everything the readings show |
| `TrafficCap.SegmentTelescopes` | apps/exit/src/traffic-cap.ts:117-143 | Without a visible restart the total is last minus first |
| `TrafficCap.BootsAddUp` | apps/exit/src/traffic-cap.ts:117-143 | With visible restarts it is the sum of the final counters of the boots |
| `TrafficCap.UplinkAddsUp` | apps/exit/src/traffic-cap.ts:102-143 | For an uplink whose boots have names and whose counters only grow within a boot: all months together are what the ledger had, what its boot carried since, and the final counters of every later boot |
| `TrafficCap.SkipIff` | apps/exit/src/traffic-cap.ts:117-143 | Skipping a reading changes nothing if and only if the restart it would show, if any, still shows in the next |
| `TrafficCap.OnlyLastMatters` | apps/exit/src/traffic-cap.ts:117-143 | Within a month and a boot only the last reading matters |
| `TrafficCap.CappedStays` | apps/exit/src/traffic-cap.ts:145-149 | Capped until the month changes |
| `TrafficCap.ThrottleMatchesCap` | apps/exit/src/traffic-cap.ts:218-248 | After every successful tick, over restarts and reboots, the kernel throttles exactly when the count is at or over the cap, however earlier nft runs failed without effect |
| `TrafficCap.ThrottleMatchesIff` | apps/exit/src/traffic-cap.ts:218-248 | The exact condition for one tick |
| `TrafficCap.StuckThrottle` | apps/exit/src/traffic-cap.ts:218-248 | An nft run that fails after taking effect, then a new month: the throttle stays |
| `TrafficCap.OneWarningAMonth` | apps/exit/src/traffic-cap.ts:218-230 | At most one warning per month, over any ticks, failed saves, failed nft runs, restarts and reboots, as long as the clock does not go back a month and each restart loads a state with the warning; a file that is up to date always has it |
| `TrafficCap.WarnedIffDue` | apps/exit/src/traffic-cap.ts:205-230 | A month is warned about if and only if some reading of it finds its count at four fifths of the cap or more, over any ticks, failed saves, failed nft runs and restarts |
| `TrafficCap.WarningStep` | apps/exit/src/traffic-cap.ts:205-230 | A tick never repeats a warning, whether or not its save succeeds; a restart keeps that so if and only if the state it loads remembers the month's warning |
| `TrafficCap.ForgottenWarningRepeats` | apps/exit/src/traffic-cap.ts:205-230 | From any state where it does not, a restart and at most two ticks warn about that month again |
| `TrafficCap.SecondWarning` | apps/exit/src/traffic-cap.ts:218-230 | Such a run: warning, failed save, restart, and a second warning in one month, although the promise is once a month |
| `TrafficCap.ClockBackWarnsAgain` | apps/exit/src/traffic-cap.ts:117-143 | A clock that goes back over the end of a month does it too |
| `TrafficCap.RestartsLoseNothing` | apps/exit/src/traffic-cap.ts:205-230 | When each restart loads the last state, the ledger is the fold of all readings, whatever saves failed before |
| `TrafficCap.MonthCount` | apps/exit/src/traffic-cap.ts:117-143 | Over any readings and months the count is exactly what the readings of the last month show beyond the reading before them, plus what the ledger had of it if no other month came between |
| `TrafficCap.LostExact` | apps/exit/src/traffic-cap.ts:117-143 | How many bytes a count that resumes from another ledger, or from none, is short: a closed form in the readings of the month, its last counter restart and the counters of that ledger |
| `TrafficCap.RestartLosesIff` | apps/exit/src/traffic-cap.ts:205-230 | For every restart, with any file, readable or not, and any unsaved readings in any months: the next reading is exactly that many bytes short, so bytes are lost if and only if it is positive, and the ledger is what it would have been if and only if it is zero; within a month from the saved state it is never negative, and zero if and only if the counters did not restart among the readings, or nothing was counted before their last restart and that restart still shows or the saved counters were zero |
| `TrafficCap.SeenBytesLost` | apps/exit/src/traffic-cap.ts:102-116 | A run that does lose: a save fails and the machine reboots, and 20 bytes that were seen are not counted |
| `TrafficCap.CountBeginsAgain` | apps/exit/src/traffic-cap.ts:102-128 | Two more without a reboot: no save had succeeded, or the state file cannot be read; the count begins again at zero, and none of 20 bytes counts |
| `TrafficCap.OneBootLosesNothing` | apps/exit/src/traffic-cap.ts:205-230 | Within one month and boot, from a saved state, every reading accounts for everything, whatever saves failed since and however often the agent restarted and could read the file |
| `TrafficCap.ForgetIff` | apps/exit/src/traffic-cap.ts:117-143 | The same exact condition on the ledger, within a month |
| `TrafficCap.TrafficCapLoop.DoTick` | apps/exit/src/traffic-cap.ts:218-248 | The tick on the fields is the step, and it succeeds in exactly the stated cases |
| `KillSwitch.Complement` | packages/client/src/killswitch.ts:197-207 | For any overlapping exclusions the gaps are ordered, never touch and cover exactly the addresses not excluded |
| `KillSwitch.BlockRanges` | packages/client/src/killswitch.ts:210-229 | They cover exactly what is neither loopback nor allowed |
| `KillSwitch.NetshRules` | packages/client/src/killswitch.ts:381-400 | The four block rules block a packet if and only if the policy does |
| `KillSwitch.NftMeansPolicy` | packages/client/src/killswitch.ts:255-278 | First-match evaluation of the nftables chain is the policy |
| `KillSwitch.PfMeansPolicy` | packages/client/src/killswitch.ts:280-292 | pf evaluation, last match with quick, is the policy |
| `KillSwitch.IptablesApply` | packages/client/src/killswitch.ts:294-312 | The nested loops append the chain rule by rule |
| `KillSwitch.IptablesMeansPolicy` | packages/client/src/killswitch.ts:335-351 | iptables is the policy for IPv4, and for IPv6 exactly where there is ip6tables |
| `KillSwitch.SelectedBackendMeansPolicy` | packages/client/src/killswitch.ts:562-595 | Whatever back end a host gets, every packet it can send is blocked exactly when it is plain DNS to an address neither loopback nor allowed |
| `RulesStore.DescribeInjective` | packages/shared-types/src/dns-rules.ts:455-457 | The text an approval pins determines the target |
| `RulesStore.UsableExact` | packages/shared-types/src/dns-rules.ts:404-431 | The rules of a pulled body are exactly its entries that parse, do not redirect a native name and are the first such for their name, in the body's order |
| `RulesStore.ActiveInOrder` | packages/client/src/dns-rules-store.ts:226-245 | The rules in force keep that order |
| `RulesStore.ViewPartitions` | packages/client/src/dns-rules-store.ts:226-245 | Every rule is in force or pending, and exactly blocks and approved redirects are in force |
| `RulesStore.ActiveRedirectJustified` | packages/client/src/dns-rules-store.ts:284-488 | Over every run an active redirect was approved here for exactly its current target, with no pull since in which it was absent or different, no revoke, key reset or forget |
| `RulesStore.ActiveIffStands` | packages/client/src/dns-rules-store.ts:284-412 | Of the set just pulled, exactly the redirects with such an approval are active |
| `RulesStore.ActiveAfterPull` | packages/client/src/dns-rules-store.ts:284-412 | After an accepted pull exactly these apply: of the usable entries of the body, every block, and every redirect whose approval stands |
| `RulesStore.AcceptIff` | packages/client/src/dns-rules-store.ts:284-412 | A pull is accepted if and only if the set is this account's and may be taken: the stored key opens it, or, where there is none, it does not open it or a passphrase is forced, the key that the passphrase unlocks does; unless that is a reset to another key, its version is not older and the same version has the same digest. Then it is stored whole, with the approvals whose redirect is unchanged |
| `RulesStore.RefusalIsTrue` | packages/client/src/dns-rules-store.ts:284-412 | A refusal names a reason that is true of the pull |
| `RulesStore.VersionsOrdered` | packages/client/src/dns-rules-store.ts:284-412 | Between key resets and forgets accepted versions never decrease and one version never has two ciphertext digests |
| `RulesStore.RevokeTakesEffect` | packages/client/src/dns-rules-store.ts:452-461 | After revoking exactly the rules that were in force are active, but for the revoked redirect |
| `RulesStore.ApproveAllIff` | packages/client/src/dns-rules-store.ts:432-449 | Approving goes through if and only if every name is a redirect pending now, and pins the targets of these and changes no other approval |
| `RulesStore.ApproveTakesEffect` | packages/client/src/dns-rules-store.ts:432-449 | Then exactly the approved redirects apply besides what did before; otherwise nothing changes |
| `RulesStore.KeepApprovals` | packages/client/src/dns-rules-store.ts:375-386 | Approvals kept are exactly those whose redirect is there with the same target; the rest are reported dropped |
| `RulesStore.RulesDevice.AcceptPulledRules` | packages/client/src/dns-rules-store.ts:284-412 | A refusal changes nothing; acceptance records version, digest and surviving approvals |
| `RulesStore.RulesDevice.ApproveRedirects` | packages/client/src/dns-rules-store.ts:432-449 | All names or none |
| `RulesStore.RulesDevice.RevokeRedirect` | packages/client/src/dns-rules-store.ts:452-476 | Drops the approval and rewrites the active rules |
| `Noise.HonestExchange` | packages/protocol/src/noise.ts:173-268 | Over the two classes, for any keys, prologue and payloads: both payloads arrive and the keys are crossed; the transport keys, the handshake hash and both messages are the closed forms of the pattern over the primitives: the keys come from both Diffie-Hellman results in turn, the hash is the chain over name, prologue, static key and everything sent, and each message is a public key and a payload sealed under the key and hash so far (sections 5.2 and 5.3 of the Noise Protocol Framework) |
| `Noise.FirstWritten` | packages/protocol/src/noise.ts:173-196 | What the initiator sends first and the state it is left in, in closed form |
| `Noise.FirstRead` | packages/protocol/src/noise.ts:233-250 | What the responder reads from any first message, and the state it is left in; refused exactly when it is too short, its key has no shared secret, or it does not open |
| `Noise.SecondWritten` | packages/protocol/src/noise.ts:252-267 | What the responder sends second, and the transport keys and hash it ends with, in closed form |
| `Noise.SecondRead` | packages/protocol/src/noise.ts:197-212 | What the initiator reads from any second message, and the keys and hash it ends with; refused exactly in the same cases |
| `Noise.InitiatorRunOk` | packages/protocol/src/noise.ts:173-213 | Whatever is called in whatever order an initiator yields keys at most once, uses no nonce twice in one mixKey epoch, and its wiped ephemeral is never needed |
| `Noise.ResponderRunOk` | packages/protocol/src/noise.ts:216-268 | The same for a responder |
| `Noise.FailedFirstMessageIsFinal` | packages/protocol/src/noise.ts:233-267 | After a failed first message no call ever yields keys or changes anything |
| `Noise.NkInitiator.ReadSecond` | packages/protocol/src/noise.ts:197-212 | The method is the transition, out of order refused, the secret wiped |
| `Noise.NkResponder.WriteSecond` | packages/protocol/src/noise.ts:252-267 | The same for message 2 |
| `Noise.SymmetricState.Encrypt` | packages/protocol/src/noise.ts:128-132 | Seals with the current key, nonce and hash, advances the nonce, hashes the ciphertext |
| `Noise.SymmetricState.Decrypt` | packages/protocol/src/noise.ts:134-144 | A failed open changes nothing |
| `FlowControl.RunSound` | packages/protocol/src/flow-control.ts:45-136 | For any interleaving over any number of streams every window stays in [0, initial] and the circuit never accounts for more than its streams |
| `FlowControl.StreamAccount` | packages/protocol/src/flow-control.ts:45-136 | While no stream is granted more than it has outstanding: what a stream has outstanding is what it sent, counting exactly the sends that both windows admit, less what it was credited |
| `FlowControl.GrantExactIff` | packages/protocol/src/flow-control.ts:88-136 | A grant keeps the two accounts equal if and only if it is at most what the stream has outstanding or no other stream has any |
| `FlowControl.CeilingIff` | packages/protocol/src/flow-control.ts:88-136 | After a grant, every later run of modest grants keeps all streams within the circuit window if and only if it was at most what the stream had outstanding or no other stream had any |
| `FlowControl.CircuitIsCeiling` | packages/protocol/src/flow-control.ts:99-136 | While no stream is granted more than it has outstanding, all streams together never exceed the circuit window |
| `FlowControl.OverGrantBreaksCeiling` | packages/protocol/src/flow-control.ts:88-92 | An excessive grant lets them |
| `FlowControl.StreamFlow.Consume` | packages/protocol/src/flow-control.ts:121-129 | Debits both windows or neither |
| `FlowControl.Multiplexer.Send` | packages/protocol/src/flow-control.ts:106-129 | On shared window objects a send is the consume step and touches no other stream |
| `CircuitTable.CircuitTable.Add` | packages/protocol/src/circuit-id.ts:93-99 | Refuses the reserved id, a taken id and a full table, and never evicts |
| `RelayLink.Bookkeeping` | packages/client/src/tunnel.ts:187-373 | Over every event sequence: while open, pending equals the number of circuits being created and is at most 32, the table is at most 64; every promise is settled exactly when it no longer waits and never twice; no CIRCUIT_CREATE precedes the proof |
| `RelayLink.SentExact` | packages/client/src/tunnel.ts:187-356 | In every reachable state an event sends exactly what it owes: CIRCUIT_CREATE for a stream when the relay is proven, fewer than 64 circuits are held and fewer than 32 awaited; CIRCUIT_DESTROY for an awaited circuit that timed out or failed key confirmation; PONG for PING; nothing else |
| `RelayLink.CircuitsExact` | packages/client/src/tunnel.ts:187-373 | And each circuit is open exactly if it was and did not end, or was awaited and is now confirmed; awaited exactly if it was and got no answer, refusal or timeout, or was just asked for; the link is closed exactly after its socket, a missing proof or the idle timer on an empty table ends it |
| `RelayLink.ClosedSettlesAll` | packages/client/src/tunnel.ts:358-373 | Once the link is gone every promise is settled once |
| `RelayLink.Promote` | packages/client/src/tunnel.ts:353-355 | Re-adding a created circuit never fails |
| `RelayLink.RetiringIff` | packages/client/src/tunnel.ts:193-263 | In every reachable state and for every event: a link that is closed, in use or has its idle timer stays so, except exactly when its only circuit fails key confirmation or no handshake can be built on it while it is empty; one that is none of these becomes so only by a circuit or by its end |
| `RelayLink.IdleForGood` | packages/client/src/tunnel.ts:244-263 | Such a run: the only circuit fails key confirmation, and the empty link stays open with no timer |
| `RelayLink.TimerLostForGood` | packages/client/src/tunnel.ts:193-207 | And another: a certificate expires between its verification and the opening of the circuit, which has already stopped the idle timer; the same on a link never used |
| `RelayLink.RelayConnection.Dispatch` | packages/client/src/tunnel.ts:265-356 | The dispatch on the fields is the step for the frame |
| `RelayLink.RelayConnection.OpenOn` | packages/client/src/tunnel.ts:193-242 | Opening a circuit on the fields is the function on values, whatever the table holds; a full table rejects the promise, and a handshake that cannot be built throws with the timer already stopped |
| `RelayLink.RelayConnection.OpenStreamOn` | packages/client/src/tunnel.ts:447-475 | A stream claims a circuit exactly when the link has capacity and a handshake can be built |
| `LinkSlots.SlotLimited` | packages/client/src/tunnel.ts:574-629 | In every run a slot has at most one connection in progress and at most maxLinks tracked links, counting it |
| `LinkSlots.ConnectionsExact` | packages/client/src/tunnel.ts:426-629 | In every reachable state: a connection is begun exactly when one is wanted, none is under way and there is room; it opens exactly when it settles well, and ends exactly when it goes or a re-check that had taken it finds the relay unlisted; it is tracked from its opening until it goes or any re-check finds that |
| `LinkSlots.TrackedIff` | packages/client/src/tunnel.ts:426-439 | Every open connection stays tracked, except exactly when a directory re-check, of any number at once, drops the relay after a link joined since that re-check took its links |
| `LinkSlots.TrackedRun` | packages/client/src/tunnel.ts:426-439 | Over every run: all connections stay tracked if and only if no re-check does that, and while they do at most maxLinks are open |
| `LinkSlots.OrphanedConnections` | packages/client/src/tunnel.ts:426-439 | Then more than maxLinks connections can be open |
| `LinkSlots.LinkSlot.Choose` | packages/client/src/tunnel.ts:574-591 | Uses the first link with capacity if there is one; otherwise waits exactly if one is being connected, refuses exactly if all are taken, and else starts the one connection |
| `LinkSlots.LinkSlot.StartCheck` | packages/client/src/tunnel.ts:426-434 | A directory re-check takes the links of the slot before its lookup; others may be under way |
| `LinkSlots.LinkSlot.EndCheck` | packages/client/src/tunnel.ts:434-439 | After the lookup it closes the links it took, one by one, and deletes the slot, unless the relay is listed; the limits are kept |
| `Frame.EncodeFrame` | packages/protocol/src/frame.ts:77-118 | Filling the buffer field by field gives the header and payload |
| `Frame.FrameRoundTripIff` | packages/protocol/src/frame.ts:77-191 | Decoding gives back what was encoded if and only if the flag word is below 2^32 |
| `Frame.LargeFlagsCounterexample` | packages/protocol/src/frame.ts:92-99 | A flag word of 2^32 passes the 32-bit mask and is sent as zero |
| `Frame.EncodesWhatWasDecoded` | packages/protocol/src/frame.ts:120-191 | Any accepted bytes are the encoding of the frame they decode to |
| `Frame.EncodeError` | packages/protocol/src/frame.ts:217-274 | The receiver reads the same code and scope and the longest allowed prefix of the detail |
| `Frame.DetailRead` | packages/protocol/src/frame.ts:233-274 | The text the receiver reads is the first so many characters of the detail, never half of one, all of them if and only if they fit in 256 bytes |
| `Frame.DetailReadIff` | packages/protocol/src/frame.ts:217-274 | The receiver reads exactly the detail sent if and only if it fits, has no lone surrogate and does not begin with a byte order mark |
| `Overlay.CreateRoundTrip` | packages/protocol/src/overlay.ts:65-92 | CIRCUIT_CREATE decodes to the name and message encoded |
| `Overlay.CreateCanonicalIff` | packages/protocol/src/overlay.ts:78-92 | Accepted bytes re-encode to themselves if and only if the name does not begin with a byte order mark |
| `Overlay.CreateNotCanonical` | packages/protocol/src/overlay.ts:78-92 | A name with a byte order mark before it is accepted as the name |
| `Overlay.DestroyInverse` | packages/protocol/src/overlay.ts:101-113 | Both directions for CIRCUIT_DESTROY |
| `Overlay.HelloAckInverse` | packages/protocol/src/overlay.ts:249-265 | Both directions for HELLO_ACK |
| `Overlay.StreamRoundTrip` | packages/protocol/src/overlay.ts:151-228 | Stream messages decode to what was encoded |
| `Overlay.StreamReadIff` | packages/protocol/src/overlay.ts:119-228 | Bytes are read as a message if and only if they are its type byte, 1 to 6 for OPEN, OPENED, DATA, RESET, WINDOW and FIN, then its data or its number at its width |
| `Overlay.StreamCanonicalIff` | packages/protocol/src/overlay.ts:197-228 | Accepted bytes re-encode to themselves if and only if they are not DATA beyond the largest chunk |
| `Socks.ChunksRefineStream` | packages/client/src/socks.ts:179-248 | For any split of any stream the outcome, domain and port are those of the whole stream, and early bytes followed by later chunks are exactly what follows the CONNECT |
| `Socks.SplitsAgree` | packages/client/src/socks.ts:179-248 | Two splits of one stream end alike |
| `Socks.HandshakeConnects` | packages/client/src/socks.ts:179-248 | A client that offers no authentication and asks for a domain and a port gets them in any split of its bytes, and what it sent behind its request is the tunnel's |
| `Socks.RequestRead` | packages/client/src/socks.ts:112-129 | A CONNECT of any domain and port, the port with its high byte first, is read as them, whatever follows |
| `Socks.RequestWritten` | packages/client/src/socks.ts:112-129 | What is read as a CONNECT begins with exactly the bytes of that request |
| `Socks.RequestRefused` | packages/client/src/socks.ts:112-122 | Any other request is refused for the first that is wrong of version, command and kind of address, with its own code |
| `Socks.GreetingRead` | packages/client/src/socks.ts:93-101 | A greeting is read from its bytes, whatever follows |
| `Socks.GreetingWritten` | packages/client/src/socks.ts:93-101 | And what is read as one begins with one |
| `Socks.IncompleteIsShort` | packages/client/src/socks.ts:68-129 | An incomplete greeting is under 257 bytes and an incomplete request under 262, so the 1024-byte guard never fires |
| `Socks.Handler.Receive` | packages/client/src/socks.ts:200-248 | The data handler on the fields is the step of the machine |

## Left out

- Real cryptography, and any claim of computational secrecy or unforgeability.
- JSON shapes and the regular expressions for addresses, keys, hostnames, endpoints and interface names; the model takes parsed values. The length and character conditions that the proofs need are kept as predicates.
- The text of firewall rules, `wg`, `nft` and `conntrack` arguments, and the conversion between addresses and numbers.
- Timer durations, back-off, jitter and heartbeats: a timer is an event that may come at any moment while it is pending.
- Crashes in the middle of a write: properties are stated at the end of each operation.
- `enableKillSwitch` and `disableKillSwitch`: applying, recording and undoing the rules, which is a straight sequence of commands.
- `TunnelManager.shutdown`, and the PONG a service node answers a PING with.
- Streams inside a circuit, sessions after the handshake, and the circuits a service node accepts.
- `openStream` beyond claiming a circuit on a link with capacity, and the choice of a relay by binding and operator.
- The service AUTH payload, which is JSON; only the statement it signs is modelled.
- The namespace tables, the web app, the API, the command line and logging.
- ServiceNode.ServiceNodeMachine.ConnectNow: the five fields that describe one connection are one record, because the source resets them together.
- ExitAgent.ParseRows: the derivation of an IPv6 address from an IPv4 one is a parameter, injective where it matters.
- TrafficCap.ThrottleMatchesCap: the four-fifths share is exact here, a floating-point product in the source.
- TrafficCap.OneWarningAMonth: a clock that goes back a month is left out there and shown to break it by `TrafficCap.ClockBackWarnsAgain`.
- Pins.PinEntry.Meet: takes the registry's answer parsed, and whether its relay binding verifies; the pin's date is not modelled.
- FlowControl.FlowWindow.constructor: requires the positive credit that the source throws without.
