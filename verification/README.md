# A verified model of the mail client's durable and concurrent core

The client keeps a local replica of a user's mail and changes the remote side through
asynchronous actors that share one durable store. Any of them may stop at an `await`, crash or
be overtaken. This project models those actors and the store in Dafny and proves what they keep:
over all inputs, all interleavings and all runs.

`dafny verify dfyconfig.toml` checks the whole project.

## How it is organised

| files | part of the client |
|---|---|
| `PendingMutations`, `SendIntents`, `MutationCas` | the mutation record, its lifecycle and the compare-and-swap that guards it, in the memory engine and in the native one |
| `OutboxProtocol`, `OutboxSafety`, `OutboxTheorems`, `OutboxRunners`, `OutboxOutcomes` | any number of mutation runners over the durable rows, as events; the invariant; what follows; the runners' methods, each proved to be one event; what every answer, claim and piece of evidence makes of a row |
| `ProductionOutbox` | the runners over the native engine and the native mail layer: every run of the whole is a run of those events |
| `RemoteErrors`, `RemoteBodySource` | what an error says about the remote operation, and who may still answer for one |
| `Collections`, `CursorSync`, `Coordinator` | one synchronized collection under a cursor; racing coordinators against the remote's whole history; one coordinator's retry loop |
| `Records`, `SyncWrites`, `WriteOutcomes`, `MemorySyncPort`, `SyncRefinement`, `OptimisticWrites` | the ten writes of the sync port as functions on the whole replica; when each is accepted and what exactly it stores and announces; the memory engine's methods on mutable maps, proved to be those functions; the two engines' optimistic updates |
| `MailboxForest`, `MailboxViews`, `ViewPositions`, `CompoundKeys`, `Decimals` | the mailbox tree, the partial mailbox listings and the positions they speak of, the string keys of the maps |
| `Bootstrap`, `BootstrapRuns` | creating, opening and resetting the encrypted cache, with a failure or a crash at any call |
| `SessionLifecycle`, `SessionOutcomes`, `RemoteApplication`, `AccountBinding` | connect, disconnect, refresh and dispose, interleaved at awaits, listeners and the factory; what each tells its caller and shows; to which remote account a connect binds |
| `ImapLines`, `ImapText`, `ImapCodes`, `ImapResponses`, `ImapCommands` | the native IMAP layer: bounded responses, quoting, the numbers in responses, what a server's bytes come to, and what its errors prove |
| `SmtpSubmission`, `SmtpReplies`, `SmtpMessage`, `MailReading`, `Base64`, `DotStuffing`, `Texts` | the native SMTP layer: the envelope, what a server's replies come to, the message that is built, how its recipient reads it, transparency, and what its errors prove |
| `MutationCodec` | mutations on their way to the native side and back |

Where the source updates objects, the model has classes with the same fields and methods. Where
it is asynchronous, each method or event is one stretch that runs undisturbed, from one await to
the next, and runs are arbitrary sequences of stretches; what is suspended is kept as data.

## What is assumed

- A call of a storage engine is one atomic step. A file or key-store call takes effect or not,
  and may fail or be followed by the end of the process in either case.
- In `OutboxProtocol`, a failure that invites a retry (`RemoteError.InvitesRetry`) is reported for a
  remote mutation only if it was not and will not be applied (`OutboxProtocol.Honest`).
  `ImapCommands` and `SmtpSubmission` prove this of the native layer, taking an IMAP server at its
  word when it answers OK, NO or BAD, and `ProductionOutbox` puts both together: there the
  assumption is gone, and a remote applies a request whose call has ended only if that call did
  something. `OutboxTheorems.UntruthfulRetryDuplicates` proves that the assumption is needed: with
  it broken once, a message can be accepted twice.
- A mutation id names one staged mutation for ever; the engines themselves would accept it again
  after its row is removed.
- The remote answers a synchronization request truthfully about the states it names (section 5.2
  of RFC 8620).

## What holds only under a condition

Each of these is a theorem, with the exact condition or with the runs that show the loss.

- A reset does not look at the create marker. A reset over an interrupted creation succeeds and
  its engine serves, but the next start deletes what was written meanwhile
  (`BootstrapRuns.ResetOverCreateMarkerLosesData`; `BootstrapRuns.LossIsReachable` is such a run
  from the first start of all); a clean start keeps the data of a usable
  database exactly when no marker is on disk (`BootstrapRuns.StartKeepsDataIff`).
- When the reset marker is written but not confirmed, the reset reports a failure and the old
  engine goes on serving; its writes are discarded by the next start
  (`BootstrapRuns.UnconfirmedMarkerLosesData`, and a run in `BootstrapRuns.UnconfirmedLossIsReachable`).
- A mailbox delta drops remote records that do not validate. If an older version of such a record
  is held locally it stays, under the new cursor: the collection is a faithful copy exactly when
  this does not happen (`CursorSync.CommitMaterializesIff`). A remote mailbox renamed to a name
  that the factory refuses does it (`SyncRefinement.NamelessMailboxStaysBehind`).
- How much of the stream is consumed by a line that is too long depends on how the bytes were
  split into buffers; everything else about reading a line does not
  (`ImapLines.ConsumedIsChunkIndependentIff`).
- The two engines update keywords in opposite orders; on any email they store the same keywords
  exactly if the change does not add and remove the same one
  (`OptimisticWrites.KeywordOrdersAgreeIff`), which the change's factory makes sure of
  (`OptimisticWrites.KeywordEnginesAgree`).
- Stuffing dots after line ends leaves a leading dot of the whole message alone: the message
  arrives exactly when it has none (`DotStuffing.StuffedArrivesIff`), which its first header
  guarantees.
- The two mutation runners disagree on a failure that is safe to retry and names no outcome: the
  older one retries, the other gives up (`OutboxTheorems.RunnersSettleAlikeIff`).
- A header value goes out as it is when it is plain ASCII, so one that looks like an encoded word is
  read as what it seems to encode; every other value is read as it was given
  (`MailReading.HeaderIsReadBackIff`). An address is read back exactly if its email stands out from
  what surrounds it (`MailReading.AddressIsReadIff`); then the whole message says what the request
  says (`MailReading.MailIsReadBack`).
- The second read of `resolveBinding`, after a registration conflict, can only fail: whoever
  registered the account first bound it for good (`AccountBinding.SecondReadNeverSelects`).
- A malformed SMTP reply to the message is reported as known not to be applied, although the
  message was sent; it never invites a retry (`SmtpSubmission.SmtpClient.Submit`).

The modules whose names end in `Outcomes` say of single operations what they come to for every
state, without naming the functions that compute it; the theorems about runs say what follows when
they are put together. Four other rows are one-step facts rather than theorems about runs: they are the exact
conditions of theorems about runs. `OutboxTheorems.LeftInFlightIff` lists the answers that
`OutboxTheorems.AmbiguityAbandons` is about; `OutboxTheorems.RunnersSettleAlikeIff` says how far the
two kinds of runner in `OutboxTheorems.AtMostOnceSend` differ; `BootstrapRuns.StartKeepsDataIff` is
the condition behind `BootstrapRuns.CommittedDataSurvives`; and `MutationCas.TransitionsAreReplacements`
is the converse of `MutationCas.AcceptedReplacementAdvances` for the domain's own transitions.

## Model

| member | source | states |
|---|---|---|
| OutboxTheorems.AtMostOnceSend | src/outbox/mutation-runner.ts:77-184 | In every run of any number of runners of both kinds, reconciliations and crashes, of all requests ever sent for one staged message at most one is not refused, so at most one is accepted. |
| OutboxTheorems.EachAttemptDispatchedOnce | src/outbox/mutation-runner.ts:105-130 | Each attempt of a mutation, of whatever kind, is dispatched at most once, by one runner. |
| OutboxTheorems.StepAdvancesRow | src/adapters/memory/memory-sync-port.ts:192-209 | One event either leaves a staged row as it is or moves it strictly forward in (attempt, phase); terminal rows do not change and removed ones do not come back. |
| OutboxTheorems.NoSnapshotRecurs | src/adapters/memory/memory-sync-port.ts:558-590 | The same over whole runs: equal rank means the very same snapshot, so a successful compare-and-swap compared with what nobody touched since. |
| OutboxTheorems.AbandonedSendIsNeverResent | src/outbox/mutation-runner.ts:225-338 | Once the runner of an in-flight send is gone, no run sends the message again; the row stays as it is unless a reconciler finds the message delivered, and then it is only confirmed and removed. |
| OutboxTheorems.AmbiguityAbandons | src/outbox/mutation-runner.ts:161-258 | An ambiguous error, an untyped throw, an acceptance without a usable id or an answer for a replaced session puts the send into that state. |
| OutboxTheorems.LeftInFlightIff | src/outbox/mutation-runner.ts:161-258 | The exact condition of AmbiguityAbandons: exactly these answers leave a send in flight; every other one settles it. |
| OutboxTheorems.RunnersSettleAlikeIff | src/sync/outbox.ts:210-223 | Where the two kinds of runner differ: they settle a send alike on exactly the answers other than a safe retry without a known outcome. |
| OutboxTheorems.UntruthfulRetryDuplicates | src/sync/outbox.ts:99-158 | If a runner is told to retry a message that was accepted, five further events make the remote accept it a second time. |
| OutboxTheorems.ReplacementAdvancesRow | src/adapters/memory/memory-sync-port.ts:558-576 | A proposed replacement leaves every row as it is or advances a non-terminal one. |
| OutboxSafety.StepKeepsInv | src/outbox/mutation-runner.ts:77-131 | Every event keeps the invariant that ties rows, snapshots held across awaits and the log of requests together. |
| OutboxSafety.RunKeepsInv | src/outbox/mutation-runner.ts:77-131 | So does every run. |
| OutboxRunners.Outbox.RunMutation | src/outbox/mutation-runner.ts:77-103 | Reading a mutation and branching on its lifecycle is the opening event of a runner. |
| OutboxRunners.Outbox.ProcessSendMutation | src/sync/outbox.ts:64-73 | The older runner's opening event: only a send that is pending or due. |
| OutboxRunners.Outbox.ClaimAttempt | src/outbox/mutation-runner.ts:105-128 | Claiming by compare-and-swap, and what an encryption failure leads to after it. |
| OutboxRunners.Outbox.ExecuteRemote | src/outbox/mutation-runner.ts:161-223 | Dispatching the claimed attempt, or a retry if there is no connection. |
| OutboxRunners.Outbox.RemoteAnswered | src/outbox/mutation-runner.ts:170-258 | What either runner does with every kind of answer. |
| OutboxRunners.Outbox.SettleRemoteFailure | src/outbox/mutation-runner.ts:225-249 | Which failures are retried, which are final and which leave the row in flight. |
| OutboxRunners.Outbox.SettleKnownFailure | src/sync/outbox.ts:105-158 | The same for the older runner. |
| OutboxRunners.Outbox.SettleRetry | src/outbox/mutation-runner.ts:260-270 | Settles exactly an attempt that is under way; the next snapshot differs from the claimed one in its lifecycle only, which waits for the retry, and writing it succeeds on exactly the rows that nobody has overtaken. |
| OutboxRunners.Outbox.SettleTerminal | src/outbox/mutation-runner.ts:272-279 | The same for a terminal failure. |
| OutboxRunners.Outbox.SettleConfirmed | src/outbox/mutation-runner.ts:170-184 | The same for a confirmation: a send needs the id of the sent email, which its lifecycle keeps; an update is confirmed by itself. |
| OutboxRunners.SettlementCommits | src/adapters/memory/memory-sync-port.ts:558-576 | For every state of the rows, the compare-and-swap of a lifecycle transition succeeds if and only if the row is still the snapshot it was made from, and changes that row alone. |
| OutboxRunners.Outbox.SendPrepared | src/outbox/mutation-runner.ts:133-159 | A send is claimed only after its preparation, whatever that came to. |
| OutboxRunners.Outbox.SettlementWritten | src/outbox/mutation-runner.ts:260-279 | Writing the settlement is one compare-and-swap against the snapshot of the claim. |
| OutboxRunners.Outbox.ConfirmedRemoved | src/outbox/mutation-runner.ts:380-412 | Only a confirmed row is removed. |
| OutboxRunners.Outbox.Reconciled | src/outbox/mutation-runner.ts:281-365 | Is the event of that name: what each kind of evidence does to a surviving in-flight row, as the theorems of `OutboxOutcomes` say. |
| OutboxRunners.Outbox.KeywordReconciled | src/outbox/mutation-runner.ts:288-313 | The evidence for a keyword change is read off the refreshed email; without a refresh there is none. |
| OutboxOutcomes.RefreshedKeywordIsSettled | src/outbox/mutation-runner.ts:294-313 | A keyword change left in flight is confirmed exactly when the refreshed email has every keyword added and none removed, retried when it has not, and failed for good when the email is absent. |
| OutboxOutcomes.NotAppliedKeywordIsRetried | src/outbox/mutation-runner.ts:301-305 | Over the events of a reconciler, an update not applied leaves its row waiting for a retry under the same attempt count, and nothing else changes. |
| OutboxOutcomes.AbsentTargetFails | src/outbox/mutation-runner.ts:300 | One whose email is absent leaves its row failed for good. |
| OutboxOutcomes.AppliedIsConfirmed | src/outbox/mutation-runner.ts:306-361 | What was applied leaves its row confirmed, a send with the id of the email found, and about to be removed. |
| OutboxOutcomes.OtherEvidenceSettlesNothing | src/outbox/mutation-runner.ts:284-292 | Inconclusive evidence settles nothing, nor does evidence against a send or a membership change. |
| OutboxOutcomes.OvertakenReconcilerChangesNothing | src/outbox/mutation-runner.ts:389-402 | No evidence whatever changes a row that somebody has moved since it was read. |
| OutboxOutcomes.ConfirmedRowIsRemoved | src/outbox/mutation-runner.ts:404-412 | A confirmed row is gone after its removal. |
| OutboxOutcomes.DeliveryConfirms | src/outbox/mutation-runner.ts:170-184 | A delivered update is confirmed, and a delivered send with the id of its email. |
| OutboxOutcomes.SafeFailureIsRetried | src/outbox/mutation-runner.ts:242-247 | A failure safe to retry and known not to be applied leads to a retry in both runners, and to nothing else. |
| OutboxOutcomes.FinalFailureIsTerminal | src/outbox/mutation-runner.ts:248 | A failure that is not to be retried is final. |
| OutboxOutcomes.UnclearAnswerSettlesNothing | src/outbox/mutation-runner.ts:229-241 | Every other answer leaves the row in flight. |
| OutboxOutcomes.ClaimTakesRow | src/outbox/mutation-runner.ts:107-119 | A claim takes a row that is pending or due in flight, under the next attempt count. |
| OutboxOutcomes.OvertakenClaimStops | src/outbox/mutation-runner.ts:113-116 | Without the very row it read, a runner stops at its claim. |
| OutboxOutcomes.UnpreparedSendIsSettled | src/outbox/mutation-runner.ts:251-258 | A send that cannot be encrypted now is retried, and one that must not be is failed for good. |
| OutboxOutcomes.UnconnectedRunnerRetries | src/outbox/mutation-runner.ts:232-234 | Without a connection nothing is sent and the row waits for a retry. |
| OutboxOutcomes.RunnerSendsIff | src/outbox/mutation-runner.ts:77-131 | A runner sends, once and under the next attempt count, exactly if its row is pending or due, the account is connected, and a send is prepared. |
| OutboxOutcomes.LegacyRunnerSendsIff | src/sync/outbox.ts:64-99 | The older runner sends exactly a send that is pending or due. |
| OutboxOutcomes.SettledRowIsNotStarted | src/outbox/mutation-runner.ts:84-99 | A row in flight is only reconciled, a confirmed one only removed, a failed one left alone. |
| OutboxOutcomes.StagedOnce | src/adapters/memory/memory-sync-port.ts:485-495 | A mutation is staged once, as pending, under a key never used before. |
| ProductionOutbox.ProductionSendsAtMostOnce | src/outbox/mutation-runner.ts:77-184 | In every run of runners over the native engine and mail layer, of all requests ever sent for one staged message at most one is applied, and then every other one ended without having done anything; the answers are those of the modelled native layer, with no further assumption. |
| ProductionOutbox.ProductionIsRun | src/outbox/mutation-runner.ts:105-258 | Every run of that whole is a run of the outbox protocol with honest answers, so all that is proved of those holds of it. |
| ProductionOutbox.NativeStepIsRun | src-tauri/src/persistence/engine.rs:558-582 | A step over the native engine is the same step over the memory engine, or a refusal that ends its runner, or leaves an unusable mutation unstaged. |
| ProductionOutbox.Send | src-tauri/src/net/smtp.rs:25-81 | What a submission reports invites a retry only if no byte of the message left. |
| ProductionOutbox.StoreFlags | src-tauri/src/net/imap.rs:261-288 | What a flag change reports invites a retry only if no flag changed. |
| ProductionOutbox.MoveMessage | src-tauri/src/net/imap.rs:290-318 | What a move reports invites a retry only if nothing moved. |
| RemoteErrors.NativeErrorsSay | src-tauri/src/net/errors.rs:55-164 | Of the errors of the native layer exactly three invite a retry, one leaves the outcome open, and three end the session. |
| RemoteBodySources.RemoteBodyCapabilityStore.Activate | src/app/remote/remote-body-source.ts:54-69 | Activation succeeds exactly for the expected generation of a connected account before disposal, and no capability let go of before returns. |
| RemoteBodySources.RemoteBodyCapabilityStore.Invalidate | src/app/remote/remote-body-source.ts:71-74 | The capability goes, the generation grows, nothing returns. |
| RemoteBodySources.RemoteBodyCapabilityStore.Dispose | src/app/remote/remote-body-source.ts:76-80 | Every active account is invalidated once, for good. |
| RemoteBodySources.RemoteBodyCapabilityStore.MutationCapability | src/app/remote/remote-body-source.ts:236-242 | A mutation starts with a current capability or, if there is none, not at all. |
| RemoteBodySources.RemoteBodyCapabilityStore.MutationEnded | src/app/remote/remote-body-source.ts:227-262 | An answer, an error or an untyped failure reaches the caller only while its capability is current, and otherwise a cancellation does; an expiring error ends the capability. |
| SendIntents.FirstPerEmailKeepsEveryEmailOnce | src/domain/send-intent.ts:55-70 | Merging addresses keeps every email exactly once and invents none. |
| SendIntents.FirstPerEmailFixpoint | src/domain/send-intent.ts:55-70 | A list without repeated emails is merged into itself. |
| SendIntents.FirstPerEmailKeepsFirst | src/domain/send-intent.ts:55-70 | What is kept is the first address with each email, in the order of the list. |
| SendIntents.MergeBcc | src/domain/send-intent.ts:55-70 | The loop with its set computes that merge of the user's and the identity's lists. |
| SendIntents.IntentIsBuiltIff | src/domain/send-intent.ts:72-106 | An intent is accepted if and only if its sender is one certain address, somebody receives it and every address has something on both sides of its first at sign and nothing that breaks a header; it then holds exactly what it was built of. |
| SendIntents.UsableIffSendable | src/domain/send-intent.ts:38-53 | The address check, character by character. |
| SendIntents.BuildIsFixpoint | src/domain/send-intent.ts:72-106 | An intent rebuilt from its own fields is accepted and is the same. |
| PendingMutations.MadeIff | src/domain/pending-mutation.ts:145-275 | The factories accept exactly mutations of their own account that change something and take back nothing of it; they start pending without an attempt. |
| MutationCas.MutationsEqualExact | src/adapters/memory/memory-sync-port.ts:69-175 | The field-by-field comparison of two snapshots is equality. |
| MutationCas.EnginesAgreeOnReplacement | src-tauri/src/persistence/engine.rs:558-582 | On records the native validator accepts, both engines' compare-and-swap is the same function of the rows; on others the native one refuses. |
| MutationCas.AcceptedReplacementAdvances | src/adapters/memory/memory-sync-port.ts:177-209 | An accepted replacement swaps exactly the row it compared, keeps all but its lifecycle, moves that strictly forward and never out of a terminal state. |
| MutationCas.TransitionsAreReplacements | src/domain/pending-mutation.ts:337-498 | The converse for the domain: every lifecycle function of the domain yields a replacement that is accepted. |
| Collections.ApplyAt | src/adapters/memory/memory-sync-port.ts:396-412 | A valid delta or replacement rewrites exactly its own ids: changed ones hold the new records, destroyed ones and, in a replacement, all others of the account are gone, the rest stays. |
| Collections.NativeApplyAgrees | src-tauri/src/persistence/engine.rs:845-918 | The native engine's order of writes and deletes leaves the same collection. |
| CursorSync.CursorSoundness | src/sync/coordinator.ts:166-199 | In every run of racing coordinators a stored cursor names the remote state of which the account's local collection is a faithful copy. |
| CursorSync.StepKeepsSound | src/sync/coordinator.ts:166-199 | Each step of any coordinator keeps that. |
| CursorSync.CommitMaterializesIff | src/sync/coordinator.ts:238-309 | A commit turns a faithful copy of its base into one of its next state if and only if no change replaces a record held locally by one the mapping drops. |
| CursorSync.CommitOnlyFromItsBase | src/adapters/memory/memory-sync-port.ts:236-263 | A commit against a cursor that has moved changes nothing and leads to one more attempt, or to none; otherwise exactly the built change is applied and its token becomes the cursor. |
| CursorSync.BuildsIff | src/sync/coordinator.ts:201-309 | A commit is built if and only if there is a cursor to build a delta on, and the mapping takes every record or is one that drops; a snapshot becomes a replacement and changes become a delta with the same ids destroyed. |
| CursorSync.UndisturbedSyncLands | src/sync/coordinator.ts:166-199 | So a synchronization of a registered account that nobody disturbs lands, the very first one too: the cursor and a faithful copy of the answered state. |
| CursorSync.BuiltIsValid | src/sync/coordinator.ts:201-309 | What a coordinator builds from a truthful answer passes the engine's validation. |
| CursorSync.BuiltRecordAt | src/sync/coordinator.ts:238-272 | Each remote record is either mapped, and then its mapped version alone bears its id, or dropped, and then nothing does. |
| CursorSync.LosslessNeverStale | src/sync/coordinator.ts:201-236 | A strict mapping, or one that drops nothing the remote ever held, never leaves an old record behind. |
| Coordinators.SyncCollection | src/sync/coordinator.ts:166-199 | The two-attempt loop lands on the very cursor it read, leaving a faithful copy of the answered state; it fails to build only from an answer that cannot be built from, reports a conflict only if the cursor moved during both attempts, and succeeds whenever every answer can be built from and the cursor stays during one attempt. |
| Coordinators.CommitLands | src/sync/coordinator.ts:176-194 | A commit whose cursor has not moved lands: a faithful copy, the new cursor, nothing else touched. |
| SyncWrites.ReachableStoreOk | src/adapters/memory/memory-sync-port.ts:223-590 | Every replica reachable through the port keeps memberships exactly for its emails, owned and distinct, every record under its own id, accepted by its factory and of a registered account. |
| SyncWrites.PerformKeepsStoreOk | src/adapters/memory/memory-sync-port.ts:223-590 | Every write keeps that invariant. |
| SyncWrites.Perform | src/adapters/memory/memory-sync-port.ts:223-590 | A write that conflicts or throws changes nothing and publishes nothing. |
| SyncWrites.EmailCommitKeepsEmailsOk | src/adapters/memory/memory-sync-port.ts:343-374 | An email commit keeps emails and memberships in step. |
| SyncWrites.MailboxCommitKeepsMailboxesOk | src/adapters/memory/memory-sync-port.ts:396-412 | A mailbox commit keeps the mailboxes in order. |
| SyncWrites.IdentityCommitKeepsIdentitiesOk | src/adapters/memory/memory-sync-port.ts:434-450 | An identity commit keeps the identities in order. |
| SyncWrites.SyncKeepsStoreOk | src/adapters/memory/memory-sync-port.ts:254-305 | So every collection sync keeps the invariant. |
| SyncWrites.WithoutMailboxes | src/adapters/memory/memory-sync-port.ts:538-544 | Removing mailboxes keeps exactly the other entries and repeats none. |
| SyncWrites.WithMailboxesOk | src/adapters/memory/memory-sync-port.ts:545-547 | Adding mailboxes keeps all entries, adds the missing ones for the email, and repeats none. |
| SyncWrites.MembershipChangeKeepsStoreOk | src/adapters/memory/memory-sync-port.ts:521-556 | So does an optimistic membership change. |
| SyncWrites.AcceptedWriteAnnounces | src/adapters/memory/memory-sync-port.ts:223-590 | An accepted write publishes one batch of hints, which covers every map entry that changed. |
| SyncWrites.OtherAccountsUntouched | src/adapters/memory/memory-sync-port.ts:223-590 | A write to one account leaves everything of every other account as it was. |
| WriteOutcomes.SendIsStaged | src/adapters/memory/memory-sync-port.ts:485-495 | A send is staged if and only if its account is registered and its key is free; then exactly its row is stored and announced. |
| WriteOutcomes.AccountIsRegistered | src/adapters/memory/memory-sync-port.ts:223-234 | An account is registered unless it is known under another service or remote account, and is stored once. |
| WriteOutcomes.BodyIsCached | src/adapters/memory/memory-sync-port.ts:452-457 | A body is stored if and only if its email is. |
| WriteOutcomes.AttachmentsAreReplaced | src/adapters/memory/memory-sync-port.ts:459-475 | Attachments are stored if and only if they are the email's, each part once, and each is one single part; else the write conflicts or throws, according to which fails. |
| WriteOutcomes.ViewIsReplaced | src/adapters/memory/memory-sync-port.ts:477-483 | A view is stored if and only if its mailbox is known and it has an item at exactly the positions that its ranges cover. |
| WriteOutcomes.KeywordsAreChanged | src/adapters/memory/memory-sync-port.ts:497-519 | An optimistic keyword change stores exactly the changed keywords and the row, and is accepted exactly for a stored email, a registered account and a free key. |
| WriteOutcomes.MembershipsAreChanged | src/adapters/memory/memory-sync-port.ts:521-556 | An optimistic membership change removes exactly the entries named, adds exactly the missing ones and stores the row; it needs known mailboxes and something to be left. |
| WriteOutcomes.PendingIsReplaced | src/adapters/memory/memory-sync-port.ts:558-576 | A row is replaced if and only if it is the snapshot expected and the next one advances it: an attempt begins, or the one under way ends. |
| WriteOutcomes.ConfirmedIsRemoved | src/adapters/memory/memory-sync-port.ts:578-590 | A row is removed if and only if it is confirmed, and then it is gone. |
| WriteOutcomes.MailboxesAreCommitted | src/adapters/memory/memory-sync-port.ts:281-292 | A mailbox commit is accepted if and only if the cursor is the expected one, its records are of the account, each once and none destroyed by it, and the factory takes each; then exactly it and the cursor are stored. |
| WriteOutcomes.IdentitiesAreCommitted | src/adapters/memory/memory-sync-port.ts:294-304 | The same for identities. |
| WriteOutcomes.EmailsAreCommitted | src/adapters/memory/memory-sync-port.ts:266-279 | The same for emails with their memberships. |
| WriteOutcomes.EmailCommittedAt | src/adapters/memory/memory-sync-port.ts:343-374 | What an accepted email commit leaves of each email and its memberships. |
| MemorySyncPorts.HasDuplicates | src/adapters/memory/memory-sync-port.ts:56-67 | Finds a duplicate exactly if two values have the same key. |
| MemorySyncPorts.ValidateChange | src/adapters/memory/memory-sync-port.ts:376-394 | The scope, uniqueness and disjointness checks of the three commit validators accept exactly the valid changes. |
| MemorySyncPorts.ClearValues | src/adapters/memory/memory-sync-port.ts:400-406 | The deletion loops leave exactly what a delta or a replacement does not clear. |
| MemorySyncPorts.SetRecords | src/adapters/memory/memory-sync-port.ts:407-411 | Sets every record, or gives up if one is refused. |
| MemorySyncPorts.ChangeKeywords | src/adapters/memory/memory-sync-port.ts:509-510 | Adds every added keyword and then deletes every removed one. |
| MemorySyncPorts.AddMailboxes | src/adapters/memory/memory-sync-port.ts:545-547 | The loop that pushes missing entries. |
| MemorySyncPorts.ClearMemberships | src/adapters/memory/memory-sync-port.ts:348-365 | Deleting by the first entry's account, or by the email's, deletes exactly the account's memberships. |
| MemorySyncPorts.CommitChange | src/adapters/memory/memory-sync-port.ts:396-450 | The commit loops compute the applied change, or nothing when a factory refuses a record. |
| MemorySyncPorts.SetEmailRecords | src/adapters/memory/memory-sync-port.ts:366-373 | Emails and memberships are set together, or not at all. |
| MemorySyncPorts.MemorySyncPort.RegisterAccount | src/adapters/memory/memory-sync-port.ts:223-234 | Is the write of that name: answer, maps and hints. |
| MemorySyncPorts.MemorySyncPort.CursorPreconditionHolds | src/adapters/memory/memory-sync-port.ts:236-252 | Compares the stored cursor, whole, with the expected one. |
| MemorySyncPorts.MemorySyncPort.ApplyCollectionSync | src/adapters/memory/memory-sync-port.ts:254-305 | Is the guarded commit of any of the three data types. |
| MemorySyncPorts.MemorySyncPort.CommitEmails | src/adapters/memory/memory-sync-port.ts:343-374 | Replaces both maps by the commit on their join, or leaves both. |
| MemorySyncPorts.MemorySyncPort.ValidateEmailCommit | src/adapters/memory/memory-sync-port.ts:307-341 | Accepts exactly valid changes of records that own their memberships, each once. |
| MemorySyncPorts.MemorySyncPort.CacheEmailBody | src/adapters/memory/memory-sync-port.ts:452-457 | Is the write of that name. |
| MemorySyncPorts.MemorySyncPort.ReplaceAttachmentRefs | src/adapters/memory/memory-sync-port.ts:459-475 | Is the write of that name. |
| MemorySyncPorts.MemorySyncPort.ReplaceMailboxView | src/adapters/memory/memory-sync-port.ts:477-483 | Is the write of that name; an invalid view throws. |
| MemorySyncPorts.MemorySyncPort.StageSendMutation | src/adapters/memory/memory-sync-port.ts:485-495 | Is the write of that name, which `WriteOutcomes.SendIsStaged` describes. |
| MemorySyncPorts.MemorySyncPort.ApplyOptimisticKeywordMutation | src/adapters/memory/memory-sync-port.ts:497-519 | Is the write of that name. |
| MemorySyncPorts.MemorySyncPort.ApplyOptimisticMailboxMembershipMutation | src/adapters/memory/memory-sync-port.ts:521-556 | Is the write of that name. |
| MemorySyncPorts.MemorySyncPort.ReplacePendingMutationIfCurrent | src/adapters/memory/memory-sync-port.ts:558-576 | Is the compare-and-swap that the outbox relies on. |
| MemorySyncPorts.MemorySyncPort.RemoveConfirmedMutation | src/adapters/memory/memory-sync-port.ts:578-590 | Removes exactly a confirmed row. |
| SyncRefinement.EmailSyncIsCommit | src/adapters/memory/memory-sync-port.ts:266-279 | On the whole replica an email sync is the single-collection commit of the coordinators' model: same answer, records and cursor. |
| SyncRefinement.MailboxSyncIsCommit | src/adapters/memory/memory-sync-port.ts:281-292 | So is a mailbox sync. |
| SyncRefinement.IdentitySyncIsCommit | src/adapters/memory/memory-sync-port.ts:294-304 | So is an identity sync. |
| SyncRefinement.NamelessMailboxStaysBehind | src/sync/coordinator.ts:238-272 | A truthful delta with a mailbox that the factory refuses: the commit leaves the old mailbox in place under the new cursor. |
| SyncRefinement.PreconditionIsCursorEquality | src/adapters/memory/memory-sync-port.ts:236-252 | The cursor precondition is equality with the stored state. |
| OptimisticWrites.NativeKeywords | src-tauri/src/persistence/engine.rs:496-503 | The native list update removes, then adds what is missing, and repeats nothing. |
| OptimisticWrites.KeywordOrdersAgreeIff | src/adapters/memory/memory-sync-port.ts:509-511 | On every email with any keywords, the memory engine's update stores the keywords of the native engine's list if and only if the change is disjoint; the list repeats nothing. |
| OptimisticWrites.KeywordEnginesAgree | src-tauri/src/persistence/engine.rs:477-508 | So on every change that its factory accepts both engines accept the write and store the same keywords. |
| OptimisticWrites.NativeMemberships | src-tauri/src/persistence/engine.rs:535-546 | The native set update, refusing an empty result. |
| OptimisticWrites.MembershipEnginesAgree | src-tauri/src/persistence/engine.rs:510-556 | Both membership updates store the same mailboxes, each once, or conflict on the same changes; an empty set is never stored. |
| MailboxForest.ValidateMailboxCatalog | src-tauri/src/persistence/engine.rs:1271-1293 | Terminates, and accepts exactly the catalogs in which no mailbox is its own ancestor; dangling parents are allowed. |
| MailboxForest.ChainEnds | src-tauri/src/persistence/engine.rs:1282-1290 | Following parents from one mailbox ends, or finds a cycle. |
| MailboxForest.RepeatIsCycle | src-tauri/src/persistence/engine.rs:1285-1287 | A mailbox met twice on a chain lies on a cycle. |
| MailboxForest.CycleNeverEnds | src-tauri/src/persistence/engine.rs:1282-1290 | From a mailbox on a cycle the chain has no end. |
| MailboxForest.CommittedIsForest | src-tauri/src/persistence/engine.rs:919-972 | A committed change leaves every account's catalog a forest. |
| MailboxForest.AcyclicIff | src-tauri/src/persistence/engine.rs:1271-1293 | No mailbox is its own ancestor if and only if there are no mailboxes of which each is the parent of the one before and the first the parent of the last. |
| MailboxForest.ForestIff | src-tauri/src/persistence/engine.rs:1271-1293 | A table is a forest if and only if no mailboxes of one account go round in a cycle by their parents. |
| MailboxForest.CommittableIff | src-tauri/src/persistence/engine.rs:919-972 | A delta or a snapshot is committed if and only if its mailboxes are usable and of the account, each once and none deleted by it, and no cycle arises by it. |
| MailboxForest.MailboxTable.ApplyMailboxDelta | src-tauri/src/persistence/engine.rs:919-947 | Commits exactly the valid changes of writable mailboxes that leave a forest, applies them exactly, and otherwise changes nothing. |
| MailboxForest.MailboxTable.ApplyMailboxReplace | src-tauri/src/persistence/engine.rs:948-972 | The same for a replacement, which deletes only what the snapshot does not list. |
| MailboxForest.MailboxTable.CheckIds | src-tauri/src/persistence/engine.rs:925-936 | The two id sets accept exactly the valid changes. |
| MailboxForest.MailboxTable.WriteAll | src-tauri/src/persistence/engine.rs:943-945 | Writes every record, or none if one is not writable. |
| MailboxViews.ValidateCoverage | src/domain/mailbox-view.ts:129-147 | Accepts exactly ordered, separated, non-empty ranges of safe integers within the total. |
| MailboxViews.ValidateItems | src/domain/mailbox-view.ts:149-180 | Accepts exactly ascending positions of distinct emails of the account. |
| MailboxViews.ValidateCoverageItems | src/domain/mailbox-view.ts:182-217 | The two-pointer pass accepts exactly if the item positions are the concatenation of the ranges. |
| MailboxViews.ValidateMailboxView | src/domain/mailbox-view.ts:219-242 | All three together accept exactly the valid views. |
| MailboxViews.ValidateNativeView | src-tauri/src/persistence/engine.rs:740-777 | Flattening the coverage and comparing accepts exactly the valid native views. |
| MailboxViews.ValidatorsAgree | src-tauri/src/persistence/engine.rs:740-777 | On safe integers both validators accept the same views, given distinct emails of the view's account and a known spec and state. |
| MailboxViews.CanonicalCoverage | src/domain/mailbox-view.ts:129-147 | Separated ranges are determined by the positions they declare. |
| MailboxViews.SamePositionsSameCoverage | src/domain/mailbox-view.ts:182-217 | Two accepted views with the same item positions have the same coverage. |
| ViewPositions.ViewIsValidIff | src/domain/mailbox-view.ts:129-242 | A view is accepted if and only if its ranges are in order and apart within the total, its items are in order and of distinct emails of the account, and there is an item at exactly the positions that the ranges cover. |
| CompoundKeys.CompoundKeyIsInjective | src/adapters/memory/memory-state.ts:36-38 | Lists of strings, of any lengths, with the same key are the same. |
| CompoundKeys.KeysIdentify | src/adapters/memory/memory-state.ts:40-74 | So ids, view specs, cursors and mutations are identified by their string keys. |
| Bootstrap.Cache.BootstrapLocalCache | src-tauri/src/bootstrap/bootstrap.rs:109-135 | What a start does to disk and key store from every state and under every failure or crash; without its key an existing database is refused and nothing changes, and under another key it stays unread. |
| Bootstrap.Cache.RecoverIncompleteCreation | src-tauri/src/bootstrap/bootstrap.rs:137-154 | Keeps the create marker until a database that the stored key opens is complete. |
| Bootstrap.Cache.CreateNewDatabase | src-tauri/src/bootstrap/bootstrap.rs:156-164 | Leaves a recoverable disk wherever it stops, and serves an empty database when it does not. |
| Bootstrap.Cache.DeleteDatabaseArtifacts | src-tauri/src/bootstrap/bootstrap.rs:84-93 | Wherever it stops, exactly the first artifacts in its order are gone. |
| Bootstrap.Cache.ResumeReset | src-tauri/src/bootstrap/reset.rs:79-106 | Keeps the reset marker until a new complete database and its key are in place, and the old key as long as the old database; never touches the create marker. |
| Bootstrap.Cache.DiscardOld | src-tauri/src/bootstrap/reset.rs:85-92 | The key goes only after everything that it opens, and both are gone at the end. |
| Bootstrap.Cache.AuthorizedReset | src-tauri/src/bootstrap/reset.rs:52-77 | Fails with the engine as it was, or ends with the engine new, unavailable or the process gone. |
| Bootstrap.Cache.CreateDurable | src-tauri/src/bootstrap/markers.rs:9-31 | Whichever of its file calls fails or is the last, the marker is there, or nothing changed and the call did not complete; it completes if all of them do, and fails in one way only. |
| Bootstrap.Cache.RemoveDurable | src-tauri/src/bootstrap/markers.rs:33-39 | Likewise, the marker is gone, or nothing changed and the call did not complete; a marker that is not there is no failure. |
| Bootstrap.Cache.OpenDatabase | src-tauri/src/bootstrap/bootstrap.rs:166-172 | Creates an empty database or leaves anything behind; never changes what an existing one holds. |
| Bootstrap.Cache.LoadDek | src-tauri/src/bootstrap/bootstrap.rs:174-185 | Finds the stored key, or fails with a failure of the store. |
| BootstrapRuns.AlwaysRecoverable | src-tauri/src/bootstrap/bootstrap.rs:109-164 | In every life of a cache, cut anywhere, a marker is present, or nothing is, or a database that the stored key opens. |
| BootstrapRuns.CleanStartConverges | src-tauri/src/bootstrap/bootstrap.rs:109-164 | So the next start that meets no failure serves. |
| BootstrapRuns.CommittedDataSurvives | src-tauri/src/bootstrap/bootstrap.rs:114-135 | What a served session committed survives every later start, exit or failed reset until a reset marker is written, if resets begin without a create marker. |
| BootstrapRuns.KeyStaysUntilReset | src-tauri/src/bootstrap/bootstrap.rs:109-154 | A stored key stays the key until a reset marker is written: no start replaces it, wherever it is cut. |
| BootstrapRuns.CleanStartRefusesIff | src-tauri/src/bootstrap/bootstrap.rs:109-135 | Without a marker and without a failure, a start refuses exactly sidecars without a database, a database without a key and one under another key, names the reason and leaves them as they are. |
| BootstrapRuns.ResetEnds | src-tauri/src/bootstrap/reset.rs:52-106 | A reset serves an empty database under its own key, or leaves the engine unavailable for its reason, or as it was if it did not begin. |
| BootstrapRuns.ServingIsSettled | src-tauri/src/bootstrap/bootstrap.rs:137-164 | A serving engine's database is complete, of its key, and has no create marker beside it. |
| BootstrapRuns.StartKeepsDataIff | src-tauri/src/bootstrap/bootstrap.rs:114-119 | The exact condition of CommittedDataSurvives at a start: a clean one keeps the data of a usable database if and only if no marker is on disk. |
| BootstrapRuns.ResetOverCreateMarkerLosesData | src-tauri/src/bootstrap/reset.rs:79-106 | A reset that began with a create marker on disk loses the next session's data. |
| BootstrapRuns.LossIsReachable | src-tauri/src/bootstrap/bootstrap.rs:137-164 | A run from the first start of all in which that happens: a creation cut short, a failed recovery, a reset, a session, a start. |
| BootstrapRuns.UnconfirmedMarkerLosesData | src-tauri/src/bootstrap/reset.rs:59-61 | So does a reset whose marker was written but reported as failed. |
| BootstrapRuns.UnconfirmedLossIsReachable | src-tauri/src/bootstrap/markers.rs:9-31 | And a run from the first start in which that happens, with no create marker at any reset. |
| SessionLifecycle.LifecycleIsSafe | src/app/remote/remote-application.ts:50-215 | After any interleaving an account is authenticated exactly while it has a registered session, of the current generation and without a pending connect; every session opened is registered or held and open, or was closed exactly once. |
| SessionLifecycle.StepKeepsOk | src/app/remote/remote-application.ts:50-215 | Every stretch of every operation keeps the lifecycle invariant. |
| SessionLifecycle.GenerationsOnlyGrow | src/app/remote/remote-application.ts:355-359 | Generations only grow over any run, and disposal is final. |
| SessionLifecycle.OvertakenConnectNeverRegisters | src/app/remote/remote-application.ts:327-345 | A connect that was overtaken never gets its session registered. |
| SessionLifecycle.NobodySharesASession | src/app/remote/remote-application.ts:126-176 | No two operations, and no operation and the registry, have the same session. |
| SessionLifecycle.BusyIsNeverStuck | src/app/remote/remote-application.ts:52-57 | An account refused as busy has a session or a connect still at work. |
| SessionLifecycle.FinallyKeepsOk | src/app/remote/remote-application.ts:119-123 | Where a connect has lost its authority the final clean-up has nothing left to clear. |
| SessionOutcomes.ConnectIsRefusedIff | src/app/remote/remote-application.ts:50-57 | A connect is refused as disposed after disposal, and as busy exactly while the account has a session or is being connected; refused, it changes nothing. |
| SessionOutcomes.ConnectBegins | src/app/remote/remote-application.ts:59-69 | Otherwise it begins under a new generation, with authority. |
| SessionOutcomes.ConnectIsShown | src/app/remote/remote-application.ts:63-69 | It is shown as authenticating and offline, and no other account changes. |
| SessionOutcomes.ConnectGoesOn | src/app/remote/remote-application.ts:70-104 | While it has authority it goes from each await to the next, and ends with its session registered and shown as connected. |
| SessionOutcomes.FailureBeforeSession | src/app/remote/remote-application.ts:105-118 | A failure before there is a session is named by its kind and shown, as online only if it says that the server was reached. |
| SessionOutcomes.FailureAfterSession | src/app/remote/remote-application.ts:105-107 | A failure to bind the account closes the session first, once. |
| SessionOutcomes.FailureAfterClose | src/app/remote/remote-application.ts:108-118 | It is shown as online then. |
| SessionOutcomes.FailureIsTold | src/app/remote/remote-application.ts:118-124 | What was shown is what the caller is told. |
| SessionOutcomes.OvertakenConnectIsCancelled | src/app/remote/remote-application.ts:109-112 | A connect that was overtaken tells its caller that it was cancelled and shows nothing. |
| SessionOutcomes.OvertakenConnectCloses | src/app/remote/remote-application.ts:105-107 | One that has a session by then closes it, once. |
| SessionOutcomes.DisconnectEnds | src/app/remote/remote-application.ts:126-134 | A disconnect takes everything of its account out at once and leaves the session to be closed. |
| SessionOutcomes.DisconnectIsShown | src/app/remote/remote-application.ts:131 | It is shown as disconnected, and no other account changes. |
| SessionOutcomes.DisconnectOvertakes | src/app/remote/remote-application.ts:128-130 | It raises the generation by one if there was anything, and overtakes every connect of its account. |
| SessionOutcomes.ReleaseEnds | src/app/remote/remote-application.ts:134-138 | The session is closed once, and a close that fails is told unless something else is. |
| SessionOutcomes.RefreshIsRefusedIff | src/app/remote/remote-application.ts:141-144 | A refresh is refused exactly after disposal and without a session. |
| SessionOutcomes.OvertakenRefreshIsCancelled | src/app/remote/remote-application.ts:155 | A refresh that was overtaken shows nothing, whatever it came to. |
| SessionOutcomes.CurrentIff | src/app/remote/remote-application.ts:347-353 | It was overtaken exactly if its session is not the one registered. |
| SessionOutcomes.RefreshIsShown | src/app/remote/remote-application.ts:146-175 | Otherwise its account stays connected and shows what went wrong, offline exactly for a network failure. |
| SessionOutcomes.RefreshExpires | src/app/remote/remote-application.ts:166-171 | An error that expires the session takes it out of the registry, to be closed, and overtakes what belongs to it. |
| SessionOutcomes.ExpiryIsShown | src/app/remote/remote-application.ts:169 | It is shown as expired, by its kind. |
| SessionOutcomes.DisposalEnds | src/app/remote/remote-application.ts:199-215 | Disposal closes every registered session once and no other, shows every known account as disconnected, and overtakes every connect. |
| AccountBinding.SelectedIffBound | src/app/remote/remote-application.ts:217-273 | A connect selects a remote account if and only if the local account is bound to it in the replica, by this connect or before, and the session offers it. |
| AccountBinding.FailureIsNamed | src/app/remote/remote-application.ts:217-273 | Otherwise it fails: locally for a read that fails, for a selection exactly if an unknown account has not exactly one to choose from, and for a mismatch otherwise. |
| AccountBinding.SecondReadNeverSelects | src/app/remote/remote-application.ts:262-273 | After a conflict in the registration the connect fails, whatever is written meanwhile. |
| AccountBinding.BindingNeverChanges | src/app/remote/remote-application.ts:217-273 | No two connects of one account ever select different remote accounts or services. |
| RemoteApplications.RemoteApplication.Connect | src/app/remote/remote-application.ts:50-69 | The start of a connect up to its announcement. |
| RemoteApplications.RemoteApplication.Announced | src/app/remote/remote-application.ts:70-72 | After the announcement: on to the factory, or cancelled. |
| RemoteApplications.RemoteApplication.FactoryEnded | src/app/remote/remote-application.ts:72-75 | After the factory: on to opening, failed or cancelled. |
| RemoteApplications.RemoteApplication.OpenEnded | src/app/remote/remote-application.ts:75-83 | The opened session is held by its connect, or closed at once when the connect was overtaken. |
| RemoteApplications.RemoteApplication.BindingWentOn | src/app/remote/remote-application.ts:84-104 | Registration, with the pending mark removed and the status published, in one stretch. |
| RemoteApplications.RemoteApplication.FailConnect | src/app/remote/remote-application.ts:105-124 | A failure is published only by a connect that still has authority. |
| RemoteApplications.RemoteApplication.CloseEnded | src/app/remote/remote-application.ts:105-118 | A connect that opened a session fails only after closing it. |
| RemoteApplications.RemoteApplication.FailureAnnounced | src/app/remote/remote-application.ts:118-124 | The end of a failed connect. |
| RemoteApplications.RemoteApplication.PublishStatus | src/app/remote/remote-application.ts:361-378 | Stores a status unless it is the one already shown. |
| RemoteApplications.RemoteApplication.Disconnect | src/app/remote/remote-application.ts:126-139 | Removes the session and what is pending, raises the generation, and leaves the session to be closed. |
| RemoteApplications.RemoteApplication.Release | src/app/remote/remote-application.ts:133-139 | Closes the session that a disconnect or an expired refresh took out of the registry. |
| RemoteApplications.RemoteApplication.RefreshAccount | src/app/remote/remote-application.ts:141-146 | A refresh starts from the registered entry, or not at all. |
| RemoteApplications.RemoteApplication.SyncEnded | src/app/remote/remote-application.ts:145-176 | The end of a refresh: dropped when overtaken, or published, or the session expired. |
| RemoteApplications.RemoteApplication.Dispose | src/app/remote/remote-application.ts:199-215 | Raises every known generation, disconnects every status and closes every registered session, once. |
| RemoteApplications.RemoteApplication.CloseAll | src/app/remote/remote-application.ts:204-214 | Closes exactly the drained sessions, each once. |
| ImapLines.ReadBoundedTextLine | src-tauri/src/net/imap.rs:634-664 | Line and error are a function of the bytes, not of how they were buffered; what remains is all after the line, or after the whole chunks that fit. |
| ImapLines.ConsumedIsChunkIndependentIff | src-tauri/src/net/imap.rs:634-664 | How many bytes are consumed is the same for every buffering if and only if the line is not too long. |
| ImapLines.Gather | src-tauri/src/net/imap.rs:635-658 | The gathering loop ends with the line, at the limit or at the end of the stream. |
| ImapLines.LineIsDecided | src-tauri/src/net/imap.rs:634-664 | A line is read without its line feed and any carriage returns before it; one that is too long or is not text is a protocol error. |
| ImapLines.NoLineIsDecided | src-tauri/src/net/imap.rs:634-664 | Without a line feed, too many bytes are a protocol error, and too few mean that the connection is gone. |
| ImapText.AnnouncedLengthIsRead | src-tauri/src/net/imap.rs:879-901 | A line that announces a literal of any length is read as announcing it, or refused beyond the limit. |
| ImapText.PushQuoted | src-tauri/src/net/imap.rs:765-778 | Quoting escapes exactly quotes and backslashes and refuses exactly values with a line end or a NUL. |
| ImapText.QuotedIsReadBack | src-tauri/src/net/imap.rs:765-778 | A server reads a quoted argument back as it was, and nothing of what follows. |
| ImapCommands.AccountResponseText | src-tauri/src/net/imap.rs:666-680 | Accepts a line exactly within both limits. |
| ImapCommands.ReadExact | src-tauri/src/net/imap.rs:541-544 | Reads exactly the announced bytes, or runs the stream dry. |
| ImapCommands.ImapConnection.ReadLiteral | src-tauri/src/net/imap.rs:531-562 | A literal and its closing line stay within the response's limits. |
| ImapResponses.ResponseIsBounded | src-tauri/src/net/imap.rs:509-583 | Any bytes whatever are a response within the limits on lines, text and literals, a refusal, or one of two failures. |
| ImapCommands.ImapConnection.CommandWithOutcome | src-tauri/src/net/imap.rs:509-583 | Ends against any server, with an answer that depends on the bytes alone and not on how they arrive, having taken a bounded number of them. If the bytes are an answer within the limits, the caller is told what it says: its lines if the word after the tag is OK, a refusal if it is NO or BAD, and an uncertain protocol error otherwise. |
| ImapResponses.AnswerIsRead | src-tauri/src/net/imap.rs:520-583 | Over bytes: any untagged lines, with literals or without, the tag, white space, a word and a comment are read as those lines under that word, and what follows is left. |
| ImapResponses.ResponseIsTold | src-tauri/src/net/imap.rs:509-583 | And so is the outcome of a command, which is uncertain for a mutation unless the server refused it, and unavailable if it could not be written. |
| ImapCommands.ImapConnection.Exchange | src-tauri/src/net/imap.rs:505-583 | The same with what all responses have in common: a mutation's error is ambiguous unless the server refused the command. |
| ImapCommands.ImapConnection.Select | src-tauri/src/net/imap.rs:320-327 | The answer is the first UIDVALIDITY in the server's response, as a function of its bytes and of whether the command could be written, or an error that leaves nothing unknown. |
| ImapResponses.SelectedIsRead | src-tauri/src/net/imap.rs:320-327 | Over the bytes that a server sends: a UIDVALIDITY is understood, whatever lines without a code come before it. |
| ImapResponses.MovedIsRead | src-tauri/src/net/imap.rs:302-310 | So is the new uid in a COPYUID. |
| ImapResponses.WholeMoveIsRead | src-tauri/src/net/imap.rs:290-318 | So is a whole move, from the bytes of both answers. |
| ImapResponses.StoresAreRead | src-tauri/src/net/imap.rs:261-288 | Of the answers to a list of stores the first that is not OK decides: a refusal is certain only if it is the first, and without one all succeed. |
| ImapCodes.BracketNumberIsRead | src-tauri/src/net/imap.rs:869-872 | A number in a bracketed code is read as that number, or as none if it does not fit. |
| ImapCodes.ParsedIff | src-tauri/src/net/imap.rs:869-872 | A number is read of digits, at least one, perhaps after a plus sign, that fit 32 bits, and of nothing else. |
| ImapCodes.LastNumberIsRead | src-tauri/src/net/imap.rs:302-310 | So is the last number before the first closing bracket. |
| ImapCommands.ImapConnection.StoreFlag | src-tauri/src/net/imap.rs:273-279 | One store, with the outcome of its command: applied or not, and certainly not when its error says so. |
| ImapCommands.ImapConnection.StoreFlags | src-tauri/src/net/imap.rs:261-288 | The answer is a function of the bytes of all responses and of the writes that fail. An error whose outcome is not unknown, at any position of the list, leaves the flags unchanged; success applies them all. |
| ImapCommands.StoredAllAt | src-tauri/src/net/imap.rs:273-279 | After all of them a message has a flag if the last store of that flag adds it, and as before if there is none. |
| ImapCommands.ImapConnection.MoveMessage | src-tauri/src/net/imap.rs:290-318 | The same for a move; a confirmed move without a new uid is unknown, and the answer is a function of the bytes of the two responses and of the writes that fail. |
| SmtpReplies.AmbiguousReplyErrors | src-tauri/src/net/smtp.rs:276-311 | After the message, an error is ambiguous unless the reply is malformed, and then it is a protocol error. |
| SmtpReplies.MalformedIffProtocol | src-tauri/src/net/smtp.rs:294-298 | A reply is a protocol error if and only if it breaks off at a line without a code. |
| SmtpReplies.CodeIsReadIff | src-tauri/src/net/smtp.rs:294-298 | A code is three digits at the start of a line, or a plus sign and two; no other line has one. |
| SmtpReplies.ReplyIsRead | src-tauri/src/net/smtp.rs:276-311 | A reply of any number of lines is judged by the code of its last: as expected, transient in the four hundreds, rejected otherwise, ambiguous after the message. |
| SmtpReplies.SessionIsDecided | src-tauri/src/net/smtp.rs:50-76 | A session goes through if every step of it does, and otherwise the first that does not decides what is reported: by whether it could be written, by its reply, by refused credentials, or as ambiguous if it is the message. |
| SmtpSubmission.CollectRecipients | src-tauri/src/net/smtp.rs:38-48 | Every recipient once, in order of first mention, or a rejection of an unusable address. |
| SmtpSubmission.SmtpClient.ExpectCode | src-tauri/src/net/smtp.rs:276-311 | Reads a reply of any number of lines to its verdict. |
| SmtpSubmission.SmtpClient.Greet | src-tauri/src/net/smtp.rs:53-66 | The whole envelope is said in order, or a part of it up to the command that fails; the outcome is a function of the replies and of the writes that fail. |
| SmtpSubmission.SmtpClient.Submit | src-tauri/src/net/smtp.rs:25-81 | An error with a safe retry means no byte of the message left; success means that the sender and every address of the three lists, each once and in the order of first mention, and nobody else were named, that the very message built of the request left after that, arrives as it was built and was answered with 250. Of a request that cannot be sent nothing is said, and why is reported; any other comes to what its session comes to. |
| SmtpSubmission.FirstPerEmailNamesOnce | src-tauri/src/net/smtp.rs:38-48 | The recipients named are exactly the emails of the list, each once, by first mention. |
| SmtpMessages.MessageIsBuiltIff | src-tauri/src/net/smtp.rs:355-372 | A message is built of exactly the requests in which no name, address or subject breaks a header and every address has an at sign. |
| MailReading.MailIsReadBack | src-tauri/src/net/smtp.rs:170-245 | What a recipient reads of a built message is what the request says: sender, the three lists that are shown, with their names and in order, subject, date, key and body; for every request of which no part can be taken for something else. |
| MailReading.AddressIsReadIff | src-tauri/src/net/smtp.rs:374-398 | A usable address is read back if and only if its email stands out from the brackets or commas around it; quotes, backslashes and any other bytes in its name do not matter. |
| MailReading.AddressesAreRead | src-tauri/src/net/smtp.rs:374-398 | So is a whole list: no name becomes an address and none is lost. |
| MailReading.HeaderIsReadBackIff | src-tauri/src/net/smtp.rs:400-406 | A header value is read as it was given if and only if it is not plain ASCII that already looks like an encoded word. |
| MailReading.BodyIsRead | src-tauri/src/net/smtp.rs:204-239 | Text, its HTML alternative and a sealed payload come back byte by byte, each as what it was. |
| SmtpMessages.HeadersAreReadBack | src-tauri/src/net/smtp.rs:170-245 | Whatever a request that can be built contains, a receiver reads exactly the intended headers and then the body: nothing is injected, no header is a Bcc and none depends on the blind copies. |
| SmtpMessages.BodyIsReadBack | src-tauri/src/net/smtp.rs:408-416 | An encoded body decodes to its very bytes, and no line of it can be a boundary. |
| SmtpMessages.LinesAreShort | src-tauri/src/net/smtp.rs:408-416 | Its lines have 76 characters, the last one perhaps fewer. |
| SmtpMessages.MessageIdIdentifies | src-tauri/src/net/smtp.rs:184-186 | Different idempotency keys have different message ids. |
| SmtpMessages.BuiltArrives | src-tauri/src/net/smtp.rs:192-195 | Every message that is built arrives as it was built. |
| Base64.EncodedIsRead | src-tauri/src/net/smtp.rs:408-410 | Whatever bytes are encoded are read back. |
| Base64.EncodedIsPadded | src-tauri/src/net/smtp.rs:408-410 | An encoding has four characters for every three bytes begun, the last two perhaps padding. |
| DotStuffing.StuffedArrivesIff | src-tauri/src/net/smtp.rs:418-421 | A receiver reads the stuffed message back, ending exactly at the terminator, if and only if it does not start with a dot. |
| DotStuffing.GuardedPasses | src-tauri/src/net/smtp.rs:67-74 | With its first line guarded too, every message passes. |
| MutationCodec.RoundTripIff | src/adapters/tauri/domain-ipc-codecs.ts:477-547 | A mutation decodes to itself, however its sets are listed, if and only if its ids, instants, payload and attempt count are as the factories leave them. |
| MutationCodec.BuiltMutationRoundTrip | src/adapters/tauri/domain-ipc-codecs.ts:477-547 | So every mutation built by its factory does, after any sequence of lifecycle transitions. |
| MutationCodec.DecodedIsCodable | src/adapters/tauri/domain-ipc-codecs.ts:512-547 | Nothing decodes to a mutation that could not be sent back. |
| MutationCodec.LifespanStaysCodable | src/domain/pending-mutation.ts:337-498 | Lifecycle transitions keep a mutation codable. |
| MutationCodec.IntentIsRebuiltIff | src/adapters/tauri/domain-ipc-codecs.ts:366-386 | Decoding rebuilds an intent unchanged exactly if it is sendable and its blind copies have distinct emails. |
| MutationCodec.DecodesIff | src/adapters/tauri/domain-ipc-codecs.ts:366-547 | Of any data whatever, exactly mutations are decoded whose records are named and of one account, whose intent may be sent or whose change changes something, and whose lifecycle is one that a mutation can have. |
| MutationCodec.LifecycleIsReadIff | src/adapters/tauri/domain-ipc-codecs.ts:393-443 | And each status is decoded as the lifecycle of that name. |
| MutationCodec.CodableIffNative | src-tauri/src/persistence/model.rs:345-468 | What survives the way is exactly what the native validator accepts, of the mutation's own account, with distinct blind copies, a confirmation if it is a confirmed send, and counts that are safe integers. |

## Left out

- Stores and views of the user interface, the application controller, messages and mock data.
- SQL text, migrations, foreign-key cascades and the search index: an engine call is one atomic step on maps, and nothing is claimed about cascades. The memory engine's bodies and attachments of destroyed emails are kept, as in its source.
- Sockets, TLS, DNS, OAuth, the key ring and the IPC transport: they succeed, fail or answer arbitrarily.
- Cryptography, reading MIME and HTML sanitizing; UTF-8 validity is a parameter, and so is the date of a message.
- How remote records are mapped to local ones: a mapping is a parameter of `CursorSync`, strict for identities and emails and lenient for mailboxes, and keeps ids.
- The JMAP and IMAP adapters between the remote operations and the native layer: `ProductionOutbox` takes the native answers as they are, and `OutboxProtocol.Honest` states what is needed of an adapter that changes them. `src/remote/native/error-mapper.ts` answers an untyped failure of the native call with a safe retry; whether the call had an effect by then is not modelled.
- Whether the email that keyword reconciliation reads after a refresh shows the true remote state, and what the reconcilers of sends and memberships look at: their evidence is a parameter.
- The order of durability of file operations under power loss: each call is durable when it returns or not at all.
- Numbers that are not integers in a view or an attempt count; a JavaScript string is a sequence of characters of the same length.
- `runAccount`, which runs one mutation after another and counts the outcomes.
- Emails under optimistic writes between synchronizations: `CursorSync` is about runs of synchronizations only.
- The remote-body reads and the reconciliation reads of `src/app/remote/remote-body-source.ts`, which follow the same checks as the mutations.
- `submit_gmail`, which differs from `submit` in its connection and authentication only.
- Bootstrap.Cache.OpenDatabase: does not model the calls inside the encrypted database library; opening, creating and migrating are one call, taken to be atomic on an existing database and to leave anything behind when a creation is cut short.
- Words in an IMAP response are separated by ASCII white space only.
- The text of the IMAP and SMTP commands, apart from quoted arguments and the addresses of the envelope, and the credentials in them; a write succeeds or fails as a whole, but for the message.
- The outcome that a runner returns to its caller: the rows, the requests and who goes on are modelled.
