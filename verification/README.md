# The credential broker's write safety

A Dafny model of the part of the Arqen broker that decides whether a mail write may happen, whether it happened,
and what is told to the caller. `dafny verify dfyconfig.toml` checks everything.

The parts, one module per file:

- `ActionMarks`, `ActionMarkLaws`, `ActionStore`: the table of one-use action marks. `ActionMarks` specifies every
  operation as a function on a map, `ActionStore` is the object that the broker updates in place, and
  `ActionMarkLaws` proves what registration, consumption and finishing keep. `MarkLifetimes` follows a mark from its
  registration to its consumption, and `RegistrationGap` says exactly where bulk and single registration differ.
- `MarkRuns`, `MarkTheorems`: any number of request threads over that table and the provider, interleaved at every
  lock acquisition and every request, and the theorems about whole runs. `MarkHandlers` joins the table and the
  provider connection in the bulk handlers that resolve, register, consume, act and finish; `MarkRefinement` proves
  that their item code refines a task of `MarkRuns`, and `MarkInterleavings` that their interleaved workers do.
- `TokenCache`, `TokenRuns`, `ItemTokens`: the access-token cache, its refresh critical section, the refresh protocol
  over every interleaving, and which token each try of an item carries.
- `ProviderCalls`, `TokenRetry`, `WriteOutcomes`, `ItemFacts`, `BatchModify`, `BatchItems`, `LabelDeletion`, `LogParts`:
  the provider as an arbitrary function of the log so far, the one retry after a 401, the write paths, and what each
  reported outcome means against the log, down to the fields of the answers.
- `BoundedExecutor`, `FatalRuns`, `BulkReadRuns`, `ProviderGate`: the four-worker map, the flag that stops a bulk
  request after a credential failure, the same flag over the windows of a bulk read, and the gate of eight requests.
- `Workers`, `LabelDeletionRuns`, `MarkWorkers`, `BatchPhases`: the items of a bulk request over one log in any
  interleaving, given the contracts of their code.
- `Json`, `ReadBudget`, `Frames`, `Requests`, `Texts`: encoded sizes with real JSON escaping, the one-mebibyte read
  result, and the newline-delimited frames on the broker's socket. `JsonReader`, `ReadResponses` and `RequestReader`
  are the other end: what a receiver gets out of these frames, by name.
- `MimeWalk`, `DraftMessage`, `EncodedWords`: choosing a readable body from a MIME tree, printing a draft, and what a
  mail reader shows of its subject.

Inputs that the model takes from outside: the clock (nondecreasing), fresh marker IDs (assumed distinct from all
earlier ones), the provider's answers, the token endpoint's answers (assumed never to mint one value twice), the
outcome of token acquisition per item, and the decoding of base64, charsets and HTML. The provider axiom is that a
request answered with a 4xx status had no effect.

## What the proofs found

- Bulk registration of distinct resources is strictly more permissive than registering them one by one. One by one
  they are admitted if and only if none of their live overlaps is executing and the table is within its bound after
  every prefix; the bulk call asks that of the whole list alone (`RegistrationGap.EachSucceedsIff`). A table on which
  the two differ is reached by a run (`RegistrationGap.SuchATableIsReached`). Of a list with a repeat the opposite
  holds (`RegistrationGap.RepeatsAreRefused`).
- An ASCII subject is passed through unchanged. A mail reader shows it as given if and only if that reader finds no
  encoded word in it (`DraftMessage.SubjectShown`). No reader shows as given one with a well-formed UTF-8 word, base64
  or Q, in any letter case, alone or behind other text such as a reply prefix; every reader does if no word begins in
  it; in between, with a word that is ill-formed, too long, in another charset or inside other text, readers may differ
  (`DraftMessage.SubjectForEveryReader`, with inputs in `SubjectMisread`, `QSubjectMisread` and `ReplyMisread`).
- A non-ASCII subject is sent as one encoded word of any length. Every reader shows it as given up to 45 bytes of
  UTF-8; beyond that only a reader that does not enforce the limit of 75 characters on words does
  (`DraftMessage.SubjectShown`, `DraftMessage.LongSubjectMisread`).
- A registration that fails has already purged expired marks, so the table may change; no live mark does.
- The cached lifetime of a token keeps its 60 s margin exactly when the provider grants at least 90 s, and exceeds
  the provider's own lifetime exactly when that is below 30 s (`TokenCaches.LifetimeBounds`).
- An insertion into the read result keeps the budget because it replaces a placeholder; each position is inserted
  once. A second insertion over a shorter item is not covered by that argument, and the read loop never makes one.
- The flag that stops a bulk request is per call of the executor, and a bulk read makes one such call per window of
  four IDs. Within its window a credential failure stops all further dispatch (`BulkReadRuns.FlagStopsItsWindow`); a
  later window tries again if and only if IDs remain and the budget is not exhausted
  (`BulkReadRuns.FailureStopsRequestIff`). So it stops a read in every run if and only if the read names at most four
  IDs (`BulkReadRuns.MayResumeIff`).
- Only the bulk client checks a frame's length before it sends it. For single requests the field limits imply the
  frame limit, except where a label is named: names and label IDs have no limit of their own, and such a request is
  sent and then refused exactly when the escaped text exceeds the limit less a fixed overhead
  (`Requests.OtherRequestsFit`, `Requests.LabelRequestAccepted`, `Requests.LongLabelRefused`).

## Model

| member | source | states |
|---|---|---|
| `ActionStores.ActionStore.RegisterActionMark` | src/broker/actions.rs:35-80 | one registration, in place, gives exactly the table and the result of the specification: purge, in-progress test, limit test, supersession, insertion; the mark it leaves is of that subject and kind, for that message and draft, and expires after 600 s |
| `ActionStores.ActionStore.RegisterActionMarks` | src/broker/actions/bulk.rs:8-62 | the bulk registration does the same for a set: all resources or none |
| `ActionStores.CheckDistinct` | src/broker/actions/bulk.rs:14-20 | one pass with two sets accepts exactly the lists in which no two resources share a message or a draft |
| `ActionStores.InsertMarks` | src/broker/actions/bulk.rs:44-61 | the insertion loop adds one pending mark per resource, under its own key, with its own marker ID |
| `ActionStores.ActionStore.ConsumeActionMark` | src/broker/actions.rs:82-107 | a marker is consumed exactly when it names a live, pending mark of this subject and kind; that mark alone turns executing |
| `ActionStores.ActionStore.ConsumeActionMarks` | src/broker/actions/bulk.rs:63-100 | a set is consumed whole, with its marks in request order, or nothing changes |
| `ActionStores.ValidateMarkers` | src/broker/actions/bulk.rs:74-89 | the validation pass accepts exactly the lists without repeats whose every member could be consumed, and finds each member's key |
| `ActionStores.TakeMarks` | src/broker/actions/bulk.rs:90-99 | the second pass sets exactly the accepted marks executing and returns them in request order |
| `ActionStores.ActionStore.FinishActionMark` | src/broker/actions.rs:109-119 | finishing removes the entry under the mark's key only while it still carries the mark's own marker ID |
| `ActionMarkLaws.RegisterAllKeepsTable` | src/broker/actions/bulk.rs:21-61 | every registration, successful or not, keeps the table invariant: at most 256 marks, each under its own key, no two of a subject sharing a message or a draft, marker IDs distinct |
| `ActionMarkLaws.RegisteredFacts` | src/broker/actions/bulk.rs:43-61 | after a successful registration the table holds for every resource a pending mark of that subject and kind that expires after 600 s, and otherwise only earlier live marks that overlap none of them |
| `ActionMarkLaws.RegistrationFrame` | src/broker/actions/bulk.rs:36-43 | a failed registration leaves every live mark as it was, and no registration removes or changes an executing mark |
| `ActionMarkLaws.SingletonIsRegisterOne` | src/broker/actions.rs:51-79 | on a table within the limit, a one-element bulk registration is the single registration, error cases included |
| `ActionMarkLaws.LimitTest` | src/broker/actions.rs:62-64 | the single call's limit test and the bulk call's agree on a single resource, given the size invariant |
| `ActionMarkLaws.EachIsBulkOnEveryPrefix` | src/broker/actions/bulk.rs:36-61 | registering distinct resources one by one at one instant succeeds if and only if the bulk call would succeed on every nonempty prefix, and then both leave the same table |
| `RegistrationGap.EachSucceedsIff` | src/broker/actions/bulk.rs:36-61 | what a caller can check beforehand: for distinct resources the calls one by one succeed if and only if no live overlap is executing and after every prefix of the list the table is within its bound; the bulk call asks the latter of the whole list alone |
| `RegistrationGap.BulkAdmitsWhatSingleCallsRefuse` | src/broker/actions/bulk.rs:39-42 | the converse is false: on a full table the bulk call may free the places it needs while the first single call already meets the limit |
| `RegistrationGap.SuchATableExists` | src/broker/actions.rs:62-64 | a concrete full table and pair of resources for which that happens |
| `RegistrationGap.SuchATableIsReached` | src/broker/actions.rs:62-79 | a run of the broker, started afresh, that reaches that table by 256 registrations |
| `RegistrationGap.RepeatsAreRefused` | src/broker/actions/bulk.rs:14-20 | a list in which two resources share a message or a draft is refused as a set, while one by one the later supersedes the earlier and both calls succeed |
| `ActionMarkLaws.EachIsConsumeAll` | src/broker/actions/bulk.rs:69-99 | bulk consumption succeeds exactly when consuming the markers one by one at the same instant would, with the same table and the same marks in order |
| `ActionMarkLaws.ConsumedFacts` | src/broker/actions/bulk.rs:90-99 | a consumed set: each marker named a pending mark of this subject and kind strictly before its expiry, which is now executing; everything else is left alone |
| `ActionMarkLaws.ExecutingKeepsTable` | src/broker/actions/bulk.rs:95-97 | setting marks executing keeps the table invariant |
| `ActionMarkLaws.FinishFacts` | src/broker/actions.rs:109-119 | a finish removes at most the mark it is for and changes no other |
| `MarkLifetimes.RegisterExact` | src/broker/actions.rs:42-80 | entry by entry: expired entries go; the call is refused while an overlapping mark is executing, and at the limit of 256 when 256 entries remain of which none overlaps; else the overlapping ones give way to a pending mark of that subject and kind, for that message and draft, that expires after 600 s |
| `MarkLifetimes.RegisterAllExact` | src/broker/actions/bulk.rs:14-61 | the same for a set: refused whole for a shared message or draft, an executing overlap or more than 256 entries; else exactly the entries that overlap nothing and one pending mark per resource |
| `MarkLifetimes.ConsumeExact` | src/broker/actions/bulk.rs:63-100 | a set is consumed exactly if it names no marker twice and each names an entry of that subject and kind that is neither executing nor expired; just those turn executing |
| `MarkLifetimes.FinishExact` | src/broker/actions.rs:109-119 | a finish removes the entry under the mark's subject and message if it carries the same marker, and nothing else |
| `MarkLifetimes.RegisteredThenConsumed` | src/broker/actions/bulk.rs:8-100 | a set's marker, consumed with nothing in between, yields exactly the registered resource to its own subject and for its own kind at every instant before 600 s have passed; to any other, or later, it is refused |
| `MarkLifetimes.RegisteredOneThenConsumed` | src/broker/actions.rs:35-107 | the same for a mark registered on its own |
| `MarkLifetimes.ConsumedStems` | src/broker/actions.rs:35-107 | over every run: a consumed marker stems from an earlier registration of that very subject and kind, less than 600 s before, and what is executed for it is the resource registered then |
| `MarkRuns.StepKeepsMarks` | src/broker/actions.rs:42-119 | every step of every interleaving of handlers keeps the table invariant, the ownership of executing marks by in-flight handlers, and the history of issued and consumed markers |
| `MarkTheorems.ExclusiveExecution` | src/broker/actions.rs:49-61 | in every reachable state the executing marks are exactly the marks owned by in-flight work, no mark is owned twice, and no two of a subject share a message or a draft |
| `MarkTheorems.OnlyOwnFinishRemoves` | src/broker/actions.rs:109-119 | an executing mark leaves the table, or changes, only by the finish of the handler that consumed it, after all that handler's provider work is done |
| `MarkTheorems.WriteDiscipline` | src/broker/handlers/drafts.rs:252-309 | per marker and over every run: each write directly follows, in the same attempt, a read that confirmed the captured revision (or that the message is no draft); at most two writes, the second only after a 401 answer to the first, so at most one may take effect; a marker never consumed has no provider log |
| `MarkTheorems.OneUse` | src/broker/actions.rs:98-106 | a marker is consumed at most once in a run, only by its own subject and kind, strictly before expiry |
| `MarkTheorems.RegistrationSupersedes` | src/broker/actions.rs:65-79 | a successful registration takes every earlier marker that overlaps it out of the table |
| `MarkTheorems.GoneForever` | src/broker/actions.rs:92-97 | a marker that has left the table never comes back |
| `MarkTheorems.SupersededNeverConsumed` | src/broker/actions/bulk.rs:43-60 | after a successful registration no earlier marker overlapping its messages or drafts is ever consumed again in the run |
| `MarkTheorems.RunInvariant` | src/broker/actions.rs:35-119 | the table, ownership and log invariants hold in every state of every run |
| `MarkHandlers.ResolveDraft` | src/broker/handlers/tokens.rs:40-60 | what is sent for one draft and what is returned are exactly determined by the tokens and the answers: nothing without a token, one read, a second one only after a 401 and with a refreshed token |
| `MarkHandlers.LookupExact` | src/gmail/client/drafts.rs:415-433 | a lookup finds exactly the message that its last answer shows for the draft: its own ID, a current message with nonempty ID, and that message's thread; a second read is made exactly after a 401 with a refreshed token; a failure is the answer's status, or what it lacked, or a missing token |
| `MarkHandlers.LookupShows` | src/gmail/client/drafts.rs:415-433 | a resolved draft's message is the messageId field of a successful answer of this call for that very draft |
| `MarkHandlers.LookupsOnlyRead` | src/broker/handlers/bulk_drafts.rs:29-31 | resolving never writes |
| `MarkHandlers.CollectResources` | src/broker/handlers/bulk_drafts.rs:32-44 | the loop pairs the drafts with their messages, or stops at the first failure in request order |
| `MarkHandlers.ResourcesPair` | src/broker/handlers/bulk_drafts.rs:32-44 | resources exist exactly when every draft was resolved, and then pair each requested draft with its own message, in order |
| `MarkHandlers.RegisteredWasShown` | src/broker/handlers/bulk_drafts.rs:23-48 | so each resource that is registered carries the message that some answer of this call showed as its draft's current one |
| `MarkHandlers.MarkDrafts` | src/broker/handlers/bulk_drafts.rs:23-48 | all drafts are resolved before any is registered: the first failure is returned and leaves the table alone, otherwise the call is exactly the bulk registration of the resolved resources |
| `MarkHandlers.FinishMarks` | src/broker/actions/bulk.rs:101-111 | the drop guard removes exactly the marks of the set, one by one |
| `MarkHandlers.RunMark` | src/broker/handlers/bulk_drafts.rs:126-152 | one mark's item: the operation its kind stands for, or an internal failure without any write for a draft mark without a draft |
| `MarkHandlers.RunMarks` | src/broker/handlers/bulk_deletion.rs:58-65 | every mark's item is run and reported in request order, and the items account for everything that was sent |
| `MarkHandlers.WritesBelongToMarks` | src/broker/handlers/bulk_drafts.rs:126-152 | every write of an admitted set carries out one of its marks, directly after a readback showing the mark to be still accurate, and that mark's reported outcome is sound |
| `MarkHandlers.AccurateIsCarriedOut` | src/broker/handlers/bulk_drafts.rs:126-152 | conversely, whenever an attempt reads that a mark is still accurate, the write that carries it out is sent next; nothing at all is sent exactly when the item is stopped, has no token, or is a draft mark without a draft |
| `MarkHandlers.ExecuteMarked` | src/broker/handlers/bulk_drafts.rs:110-153 | a set of markers is admitted whole or causes neither a request nor a change; once admitted every item does exactly what its mark and the answers call for, and afterwards the table has lost exactly the marks of the set |
| `MarkWorkers.WritesBelongToMarks` | src/broker/handlers/bulk_drafts.rs:126-152 | the same under every interleaving of the workers and at every moment, unfinished items included: a write carries out its own item's mark, and that item's own exchange before it showed the mark to be still accurate |
| `MarkWorkers.MarkReports` | src/broker/handlers/bulk.rs:113-138 | a mark's item that is over, in any interleaving, reports soundly on its own exchanges, and these are a whole path of its task |
| `MarkWorkers.LookupsShow` | src/broker/handlers/bulk_drafts.rs:29-31 | resolving a set of drafts in any interleaving writes nothing, and each resolved message was shown to the item of that very draft |
| `Workers.RunInvariant` | src/gmail/concurrency.rs:26-55 | for any item code with a contract: under every interleaving each item's own exchanges are what its code may exchange, and a finished item's result fits them |
| `MarkRefinement.ItemRefinesTask` | src/broker/handlers/bulk_drafts.rs:126-152 | whatever a mark's item sends, against whatever provider, is event for event a path of its task from waiting to done, a readback being no event |
| `MarkRefinement.ItemLogFits` | src/broker/handlers/bulk_drafts.rs:126-152 | so its log has the shape of a finished task's log, about which the theorem over interleavings speaks |
| `MarkRefinement.PathContinuesRun` | src/broker/handlers/bulk_drafts.rs:126-152 | and such a path continues any run of the broker in which the mark is in flight |
| `MarkRefinement.ClassifiedExactly` | src/gmail/client/bulk.rs:218-236 | what becomes of a write's answer as an event: unauthorized for a 401, rejected for any other 4xx, accepted for a 2xx, else uncertain |
| `MarkInterleavings.JobRan` | src/broker/handlers/bulk_drafts.rs:126-152 | exchange by exchange, a mark's item moves its task legally and leaves it at a point from which it can end |
| `MarkInterleavings.WorkersAreMirrored` | src/broker/handlers/bulk.rs:113-138 | every interleaved run of a set's workers, at every moment and with items unfinished, is mirrored by a run of the broker: each task has come exactly as far as its item, each marker's log has grown by exactly the events of its item's exchanges, and nothing else has changed |
| `MarkInterleavings.HandlerIsMirrored` | src/broker/handlers/bulk_drafts.rs:110-153 | so consuming a set of marks and letting the workers act on it, up to whatever moment, continues any run of the broker |
| `TokenCaches.LifetimeBounds` | src/broker/handlers/tokens.rs:299-303 | the cached lifetime is a minute less than the provider offers, an hour where it offers none, and 30 s where it offers less than 90 s; so the 60 s margin is kept exactly from 90 s on, and the provider's own expiry is outlived exactly below 30 s |
| `TokenCaches.TokenCache.RefreshTokenUsing` | src/broker/handlers/tokens.rs:276-317 | under the lock: only the rejected value is dropped, a live other value is reused without a refresh, a new value is stored until a minute before the offered lifetime, or an hour, is over, or for 30 s, a failed refresh stores nothing |
| `TokenCaches.StoredIsLiveUntil` | src/broker/handlers/tokens.rs:288-313 | a token stored at one instant is live exactly as long as that lifetime lasts, in seconds of 1,000,000,000 ns, and nobody else's token is affected |
| `TokenCaches.InvalidatedExactly` | src/broker/handlers/tokens.rs:276-287 | an invalidation drops the subject's token exactly while it is the rejected value, and no other token |
| `TokenRuns.RunInvariant` | src/broker/handlers/tokens.rs:260-317 | lock ownership, cache contents, refresh history and thread knowledge are consistent in every state of every run |
| `TokenRuns.SingleFlight` | src/broker/handlers/tokens.rs:266-298 | at most one refresh of a subject is in flight at any time |
| `TokenRuns.HandedOutIsNewestAndLive` | src/broker/handlers/tokens.rs:238-298 | over every run: a request is handed a token, by the read outside the lock, by the one inside it or by its own refresh, only when that token is the newest minted for its subject and is live at that instant |
| `TokenRuns.LiveTokenKept` | src/broker/handlers/tokens.rs:276-287 | a live cached token is dropped only by a thread that was rejected on exactly that value |
| `TokenRuns.RetryUsesAnotherToken` | src/broker/handlers/tokens.rs:53-56 | the retry after a 401 uses a token other than the rejected one, and there is no third attempt |
| `ItemTokens.RetryCarriesAnotherToken` | src/broker/handlers/tokens.rs:40-60 | over every run of the refresh protocol: an item makes as many tries as its call was handed tokens, the first with the first and the second, made exactly after a 401, with the second; the two differ |
| `ItemTokens.HeldWereNewest` | src/broker/handlers/tokens.rs:238-298 | each of these tokens was the newest minted for its subject, and live, when it was handed over |
| `TokenRuns.EveryRefreshCharged` | src/broker/handlers/tokens.rs:276-298 | every successful refresh but the first is charged to the rejection or the expiry of its predecessor, and no two share a charge |
| `TokenRuns.OneRefreshWhileReplacementLives` | src/broker/handlers/tokens.rs:276-297 | any number of threads rejected on one token cause at most one successful refresh while its replacement is neither rejected nor expired |
| `TokenRuns.RefreshBound` | src/broker/handlers/tokens.rs:276-317 | refreshes of a subject number at most one cold start plus its distinct rejected values plus its expired tokens |
| `TokenRuns.LiveTokenIsUsed` | src/broker/handlers/tokens.rs:238-250 | a request takes the cached token outside the lock exactly while it is live, and queues for the lock otherwise |
| `TokenRuns.SectionAlone` | src/broker/handlers/tokens.rs:276-317 | the critical section without interference: a live token other than the rejected one is handed out and kept; otherwise the refresh is made and its token cached, until a minute before the offered lifetime, or an hour, is over, or for 30 s, and handed out; the lock is free afterwards |
| `ProviderCalls.Connection.Send` | src/gmail/client/transport.rs:63-72 | a dispatch is logged with its answer, and a write moves the wrapping 64-bit counter before it leaves, whatever becomes of it |
| `ProviderCalls.RevisionRead` | src/gmail/client/drafts.rs:415-433 | a revision is read exactly from a successful answer whose id is the draft and whose messageId is that nonempty one, with a thread; any other answer is an error: its status, or an undecodable or wrong resource |
| `ProviderCalls.LabelsRead` | src/gmail/client/bulk.rs:39-62 | labels are read exactly from a successful answer with that message's ID, and are the list in it, empty when absent |
| `ProviderCalls.CustomLabelRead` | src/gmail/client/bulk.rs:20-38 | a label passes exactly if a successful answer shows it under that ID as a user label, and is a system label exactly if one shows it as that |
| `ProviderCalls.ObjectRead` | src/gmail/responses.rs:32-58 | an object is read exactly from a successful answer that carries one, an empty reply exactly from a successful one that is empty or an empty object; any other status is the error |
| `WriteOutcomes.TrashEmail` | src/gmail/client.rs:656-687 | one attempt: at most one write, directly after a read showing that this message is no draft; success only on an answer naming it |
| `WriteOutcomes.CreateLabelNamed` | src/gmail/client.rs:365-455 | one attempt: one POST; no failure after it, a 401 on the lookup included, looks like a rejection of the write |
| `WriteOutcomes.DeleteLabelById` | src/gmail/client.rs:457-509 | one attempt: the DELETE directly follows a read showing a user label of this ID |
| `WriteOutcomes.CreateDraftRaw` | src/gmail/client/drafts.rs:388-413 | one attempt: one POST, successful only when the answer carries all the draft's identities |
| `WriteOutcomes.CreateReplyDraft` | src/gmail/client/drafts.rs:322-386 | one attempt: the POST carries the message built from the headers of the source read just before it, into that source's thread; nothing is posted when those headers do not allow a reply |
| `WriteOutcomes.ReplyPosted` | src/gmail/client/drafts.rs:322-386 | a reply draft that an item posts reads back as the headers derived from the source message that the exchange just before it showed, with the requested body, and goes into that message's thread |
| `WriteOutcomes.ExecuteDraftAction` | src/broker/handlers/drafts.rs:291-309 | one attempt: the delete or send directly follows a read of the draft that shows the captured revision (ItemFacts.WritesAllowed and AllowedIsWritten say it in fields), and is sent whenever it does |
| `WriteOutcomes.WriteOutcome` | src/gmail/client/bulk.rs:218-236 | the counter and the status decide, exactly as the exchanges warrant: a 401 is passed on; without a permitted write the read's own error is the failure; a refused write is a failure with its status; an acknowledged one a success; any other is unknown |
| `WriteOutcomes.TrashEmailVerified` | src/gmail/client/bulk.rs:79-108 | a trash that was not refused is always read back, and is a success exactly when the readback shows the message in the trash, else unknown |
| `WriteOutcomes.DeleteLabelReconciled` | src/broker/handlers/bulk_labels.rs:65-84 | a DELETE neither acknowledged nor refused is looked up, and is a success exactly on a 404, else unknown |
| `WriteOutcomes.RunItem` | src/broker/handlers/bulk.rs:121-138 | one bulk item does exactly this: nothing when it is stopped or gets no token; one try; after a 401 a second try with a refreshed token, whose own 401 is final; its outcome follows from the exchanges |
| `WriteOutcomes.ItemIsSound` | src/broker/handlers/bulk.rs:113-138 | so, for every provider: each write is guarded, repeated only after a 401 and at most once; succeeded means acknowledged or confirmed, unknown that it is not; failed or not attempted if and only if every write was answered 4xx |
| `ItemFacts.WritesAllowed` | src/broker/handlers/bulk.rs:121-138 | field by field: each write an item sends is its operation's own, and where one depends on a read it comes directly behind that read, whose answer shows a message that is no draft, a user label, the draft with the captured message as its current one, or the message whose reply it carries |
| `ItemFacts.AllowedIsWritten` | src/broker/handlers/drafts.rs:291-309 | conversely: in the first attempt and in the one with another token, a read that shows this is followed by that write |
| `ItemFacts.OutcomeShown` | src/gmail/client/bulk.rs:79-108 | an item succeeded exactly if one of its writes was not answered 4xx and the fields of its answer, or of the exchange right behind it, show its effect; it failed or was not attempted exactly if every write was answered 4xx |
| `ItemFacts.EndOfItem` | src/gmail/client/bulk.rs:184-236 | a failed item reports what its last exchange shows: the refused write's status, or why the read allowed no write (its status, a draft, a system label, another revision, or an unusable answer); one is not attempted exactly if it was stopped or lacked a token at first or after a rejection |
| `ItemFacts.PermissionExact` | src/broker/handlers/drafts.rs:291-309 | the check before a write passes exactly on the answers that allow some write, and otherwise fails with the cause the fields give |
| `WriteOutcomes.TryMeans` | src/gmail/client/bulk.rs:79-108 | one try: at most one write, guarded; failed exactly when it was refused or never sent, succeeded exactly when the log confirms it |
| `WriteOutcomes.TwoTriesSound` | src/broker/handlers/tokens.rs:51-59 | joining the try that was rejected with 401 and its retry keeps the outcome sound |
| `WriteOutcomes.EffectsOfItem` | src/gmail/client/bulk.rs:218-243 | against every effect the log allows: an item's write takes effect at most once, never when it is reported failed or not attempted, and is reported unknown only when it may have |
| `BatchModify.RankFacts` | src/gmail/client/bulk.rs:137-142 | the batch holds each eligible ID at its rank, and ranks grow with the index |
| `BatchModify.EveryMemberEligible` | src/gmail/client/bulk.rs:137-142 | nothing else is in the batch |
| `BatchModify.BatchHasNoDraft` | src/gmail/client/bulk.rs:117-125 | no draft is ever in the batch: its own preflight showed it was none |
| `BatchItems.RequestMeans` | src/gmail/client/bulk.rs:109-183 | over the whole request, its retry included: an item has failed if and only if every batch that named its ID was answered 4xx, has succeeded or is unknown if and only if exactly one batch that named it was not, and has succeeded if and only if behind that batch a successful answer named the message and listed the label, if it was to be added, or did not list it, if it was to be removed |
| `BatchItems.EligibleIff` | src/gmail/client/bulk.rs:117-142 | a message goes into the batch exactly if its own check was answered with its ID and without a draft label, and else fails with the answer's status, as a draft, or for an unusable answer |
| `BatchItems.EffectsOfRequest` | src/broker/handlers/tokens.rs:51-59 | so a request changes a message at most once, and not at all if its item or the request failed |
| `BatchModify.SelectEligible` | src/gmail/client/bulk.rs:137-142 | the filter loop selects the order-preserving subsequence of the IDs whose preflight succeeded |
| `BatchModify.Assemble` | src/gmail/client/bulk.rs:172-181 | the readback cursor never runs dry and pairs each ID with its own readback, which must list the label if it was added and must not if it was removed; items carry their index |
| `BatchModify.ModifyMessageSet` | src/gmail/client/bulk.rs:109-183 | one attempt: all preflights, then one batch unless a preflight was answered 401 or none is eligible, then one readback per member unless the batch was refused |
| `BatchPhases.PhaseIsInputOrder` | src/gmail/client/bulk.rs:117-125 | under every interleaving of its workers a parallel read phase makes, in some order, exactly the reads it would make in input order, and each answer is the one the read of that very ID was given |
| `BatchModify.ModifyWithRefresh` | src/broker/handlers/tokens.rs:40-60 | the whole request: nothing without a token, one attempt, a second one exactly after a 401 with a refreshed token, and the result of the last |
| `BatchModify.RequestWrites` | src/broker/handlers/tokens.rs:51-59 | over the retry the batch is dispatched at most twice, again only after a 401, and a request that fails leaves no batch that was not answered 401 |
| `BatchModify.OperationWrites` | src/gmail/client/bulk.rs:5-19 | an attempt dispatches at most one write, and one that fails wrote nothing but what was answered 401 |
| `LabelDeletion.DeleteLabels` | src/broker/handlers/bulk_labels.rs:31-105 | no DELETE before every check is over; a system label seen aborts with no DELETE at all; each DELETE is of a label that the first phase and the request just before saw to be a user label; the items of both phases account for everything that was sent and reported |
| `LabelDeletion.ChecksDoNotWrite` | src/broker/handlers/bulk_labels.rs:37-46 | the whole first phase only reads |
| `LabelDeletion.SystemLabelReported` | src/broker/handlers/bulk_labels.rs:47-56 | the set is aborted if and only if some check was answered with a system label |
| `LabelDeletion.EveryDeleteIsOfAUserLabel` | src/broker/handlers/bulk_labels.rs:58-84 | every dispatched DELETE targets a requested label that its check saw to be a user label, and follows a second check |
| `LabelDeletion.PreflightItem` | src/broker/handlers/bulk_labels.rs:42-46 | one check: what is sent and reported is exactly determined by the tokens and the answers |
| `LabelDeletion.CheckShows` | src/broker/handlers/bulk_labels.rs:42-46 | a check is successful exactly when an answer showed a user label of this ID, and fails as a system label exactly when one showed that |
| `LabelDeletion.DeleteItem` | src/broker/handlers/bulk_labels.rs:63-99 | a checked label is deleted and reconciled as one bulk item; any other sends nothing and keeps its check's outcome |
| `LabelDeletionRuns.NoDeleteBeforeChecks` | src/broker/handlers/bulk_labels.rs:37-57 | under every interleaving of the workers the first phase only reads, and the second begins only when every check is over and none showed a system label |
| `LabelDeletionRuns.RefusedIffSystemLabel` | src/broker/handlers/bulk_labels.rs:47-56 | once the checks are over the set is refused if and only if some answer, to whichever worker, showed a system label |
| `LabelDeletionRuns.EveryDeleteIsGuarded` | src/broker/handlers/bulk_labels.rs:58-84 | every DELETE, at any moment of any interleaving, is of its own item's label, which that item's check had shown to be a user label, and so had the item's own exchange before the DELETE |
| `LabelDeletionRuns.DeletionReports` | src/broker/handlers/bulk_labels.rs:58-99 | a deletion that is over reports soundly on its own exchanges; a label that failed its check gets none |
| `BoundedExecutor.BoundedMap` | src/gmail/concurrency.rs:26-55 | for every interleaving: it terminates, each input is given to the operation exactly once, every slot is filled at the join, and results come back in input order |
| `BoundedExecutor.AtMostFourCalls` | src/gmail/concurrency.rs:34-45 | there are four workers, or one per input if that is fewer, so at most that many calls are ever in progress |
| `BoundedExecutor.AllFilled` | src/gmail/concurrency.rs:47-54 | once all workers have finished no slot is empty, so the final unwrap never fails |
| `BoundedExecutor.Pool.Claim` | src/gmail/concurrency.rs:37-40 | the next index goes to the claiming worker and to no other, or the worker retires when none is left; the termination measure goes down |
| `BoundedExecutor.Pool.Finish` | src/gmail/concurrency.rs:41-43 | what the call returned goes into the slot of the worker's own index, which was empty, and nowhere else; the termination measure goes down |
| `FatalRuns.RunInvariant` | src/broker/handlers/bulk.rs:113-130 | flag, items and event log agree in every state of every interleaving |
| `FatalRuns.LateItemSendsNothing` | src/broker/handlers/bulk.rs:115-120 | an item that looks after the flag was raised makes no token or provider call and is not attempted |
| `FatalRuns.LateCallsLookedEarlier` | src/broker/handlers/bulk.rs:115-126 | a call made after the flag was raised belongs to an item that had looked before |
| `FatalRuns.NotAttemptedHasACause` | src/broker/handlers/bulk.rs:126-129 | an item is reported not attempted only if some item lost its credential, or its own operation said so |
| `FatalRuns.FinishedItemsReport` | src/broker/handlers/bulk.rs:121-138 | without a credential failure every item reports what its operation returned; one that lost its own is not attempted |
| `ProviderGate.RunStaysValid` | src/gmail/concurrency.rs:8-25 | in every reachable state the counter equals the number of live permits and is at most eight, and threads sleep only while permits and pending wakeups together use up the limit |
| `ProviderGate.UnderflowFree` | src/gmail/concurrency.rs:20-24 | a permit's destructor always finds the counter positive, also when the send failed |
| `ProviderGate.PermitsBalance` | src/gmail/client/transport.rs:63-77 | over every run a thread has taken one permit more than it has dropped while it holds one and otherwise as many, so no permit is lost, dropped twice or ended by another thread |
| `ProviderGate.SomeoneCanMove` | src/gmail/concurrency.rs:11-14 | while anyone waits, a woken thread or a permit holder can move |
| `ProviderGate.DrainIsBounded` | src/gmail/concurrency.rs:9-25 | without new arrivals and stray wakeups every schedule is finite |
| `ProviderGate.DrainServesEveryone` | src/gmail/concurrency.rs:9-25 | and when it can go no further nobody is waiting |
| `ProviderGate.ServedMeansHeld` | src/gmail/concurrency.rs:13-15 | a thread that waits no more has held a permit on the way |
| `ProviderGate.Semaphore.TryAcquire` | src/gmail/concurrency.rs:9-16 | one look at the counter takes a permit below the limit and goes to sleep otherwise |
| `ProviderGate.Semaphore.Drop` | src/gmail/concurrency.rs:19-25 | the destructor decrements and notifies one waiter if there is any |
| `ReadBudget.PlaceholdersFit` | src/gmail/bulk/budget.rs:10-22 | the placeholders of any permitted request fit the budget |
| `ReadBudget.NoticeIsShorter` | src/gmail/bulk/budget.rs:41-49 | the notice for a fetched body is shorter than the placeholder it replaces |
| `ReadBudget.ItemChangesSize` | src/gmail/bulk/budget.rs:24-35 | replacing an item changes the encoded response by exactly the difference of the items |
| `ReadBudget.InsertKeepsBudget` | src/gmail/bulk/budget.rs:23-39 | an insertion over a placeholder keeps envelope plus newline within 1 MiB, whatever the body |
| `ReadBudget.ReadAssembly.Insert` | src/gmail/bulk/budget.rs:23-39 | in place: the outcome itself if the whole response then fits, else the notice and the exhausted flag; ReadResponses says what the response carries and weighs |
| `ReadBudget.AssemblyAdvances` | src/gmail/bulk/budget.rs:23-39 | inserting each position once keeps indexes, earlier outcomes and untouched placeholders |
| `ReadBudget.ReadEmails` | src/broker/handlers/bulk_emails.rs:5-27 | IDs are fetched window by window up to the one in which a body did not fit; every item keeps its index; each fetched position holds its own outcome or, from the first that did not fit, the notice; the rest are not attempted |
| `ReadBudget.WindowAdvances` | src/broker/handlers/bulk_emails.rs:17-22 | inserting a whole window over placeholders keeps the assembly in order, and some outcome overflows exactly when a notice stands in that window |
| `BulkReadRuns.FlagStopsItsWindow` | src/broker/handlers/bulk_emails.rs:9-16 | over every run of a bulk read: after a raise in a window no item that looks later in that window calls, and each such item is not attempted |
| `BulkReadRuns.FourIdsAreOneWindow` | src/broker/handlers/bulk_emails.rs:9-10 | a read of at most four IDs is one window, so there the flag stops everything that looks after it |
| `BulkReadRuns.FailureStopsRequestIff` | src/broker/handlers/bulk_emails.rs:9-22 | beyond its window the flag stops nothing: after a window in which it was raised a call can still follow if and only if IDs remain and the budget is not exhausted, and otherwise nothing follows at all |
| `BulkReadRuns.LaterWindowCalls` | src/broker/handlers/bulk_emails.rs:9-22 | for every number of IDs beyond four a read in which the first window raises its flag and an item of the second window calls after it |
| `BulkReadRuns.MayResumeIff` | src/broker/handlers/bulk_emails.rs:9-22 | what a caller can tell beforehand: a credential failure stops all further dispatch of a read, in every run, if and only if the read names at most four IDs |
| `ReadBudget.AssembledReadIsDelivered` | src/broker/protocol.rs:67-85 | the later size checks of the broker and of the tool server never fire on such a response, and its frame is accepted by the reading side |
| `ReadResponses.FrameCarriesItems` | src/gmail/models.rs:63-75 | the frame of a read, read back by name, gives exactly its items: each index and status, each code and message, and of each email every field: IDs, sender, the three lists of recipients, date, subject, labels, body and its status |
| `ReadResponses.FrameWeighs` | src/gmail/bulk/budget.rs:24-38 | the frame is longer than the escaped bodies it carries together, and fits exactly if it has at most 1,048,576 bytes with its newline; so bodies that weigh more are never all delivered |
| `ReadResponses.AssembledReadArrives` | src/broker/handlers/bulk_emails.rs:5-27 | whoever receives an assembled read finds at every position what was fetched for it, or from the first that did not fit the notice, and behind the last window fetched that nothing was attempted; the frame keeps both limits |
| `JsonReader.ValueReadsBack` | src/gmail/bulk/budget.rs:35 | a reader of JSON texts gets back every value that is written, whatever follows it that is no digit, and stops where it ended (RFC 8259) |
| `Json.EncodePrintable` | src/broker/protocol.rs:79-83 | no byte of an encoded response is a control character, so the frame delimiter never appears inside it |
| `Json.QuotedStringReadsBack` | src/gmail/bulk/budget.rs:35 | an escaped string reads back exactly and ends where it ended, whatever follows (section 7 of RFC 8259) |
| `Json.ItemReplaced` | src/gmail/bulk/budget.rs:24-35 | sizes of arrays change by the difference of the replaced element |
| `MimeWalk.TextBodyCandidates.CollectTextParts` | src/gmail/responses.rs:230-289 | the recursive walk over the mutable record is a fold over the preorder cut at attachments and at depth 33 |
| `MimeWalk.WalkFinds` | src/gmail/responses.rs:237-240 | the candidates are the first readable ones among the first 1,024 parts; each flag is raised exactly when one of those parts raises it; the tree is malformed exactly when there are more parts or one lies too deep |
| `MimeWalk.FirstReadableIsFirst` | src/gmail/responses.rs:257-266 | first means first: no earlier part of that kind was readable |
| `MimeWalk.MetIsHeld` | src/gmail/responses.rs:242-301 | the walk meets exactly what the tree holds, no deeper than 32 and under no attachment: texts of a kind that decode to a nonblank text of at most 262,144 bytes, those that decode to more, and those whose data does not decode or is missing although a size is given |
| `MimeWalk.TooDeepIsDeep` | src/gmail/responses.rs:237-241 | it meets the depth limit exactly if some part under no attachment lies deeper than 32 |
| `MimeWalk.AttachmentExactly` | src/gmail/responses.rs:291-301 | an attachment is exactly a part with a filename or with a Content-Disposition, in any letter case, that begins with attachment, in any letter case, blanks before it aside |
| `MimeWalk.FirstReadableIsText` | src/gmail/responses.rs:249-266 | so the chosen plain or HTML candidate is text of that kind in the message |
| `MimeWalk.FoldPastLimit` | src/gmail/responses.rs:237-241 | past the part limit nothing is collected any more, so skipping subtrees there makes no difference |
| `MimeWalk.ReadBodyText` | src/gmail/responses.rs:180-228 | which text is returned, when it is complete, and when the message is too large, in terms of the parts; any returned text is nonblank and at most 256 KiB |
| `DraftMessage.EncodeMessage` | src/gmail/client/drafts.rs:509-525 | the printing loop produces the header lines, an empty line and the normalized body |
| `DraftMessage.ThreePassesAreOne` | src/gmail/client/drafts.rs:518-523 | the three replacement passes equal one left-to-right pass mapping CRLF, CR and LF to CRLF |
| `DraftMessage.NormalizedIffNoLoneNewline` | src/gmail/client/drafts.rs:518-523 | the rewrite leaves no lone CR or LF, is idempotent, and changes exactly the texts that have one |
| `DraftMessage.MessageRoundTrip` | src/gmail/client/drafts.rs:509-525 | for control-free values, parsing the printed text recovers exactly the headers and the normalized body (sections 2.1 to 2.3 of RFC 5322) |
| `DraftMessage.CreatedDraftReadsBack` | src/gmail/client/drafts.rs:303-320 | a new draft of validated fields reads back as exactly five headers: To, Subject, MIME-Version 1.0, Content-Type text/plain; charset=UTF-8 and Content-Transfer-Encoding 8bit, whatever the body |
| `DraftMessage.SubjectSent` | src/gmail/client/drafts.rs:527-533 | a subject is sent as it is if it is ASCII, and else as =?UTF-8?B? with the base64 of its UTF-8 bytes and ?= |
| `DraftMessage.FindExactly` | src/gmail/client/drafts.rs:352-358 | a header of the source is the first of that name in any letter case, and is missing exactly if none has the name |
| `DraftMessage.ReplyExactly` | src/gmail/client/drafts.rs:359-383 | a reply is built exactly to the messages that name a recipient and a Message-ID and of which nothing that is taken over holds a control character, and has exactly its seven headers |
| `DraftMessage.ReplySubjectIsReply` | src/gmail/client/drafts.rs:362-368 | the prefix Re: is added exactly if the subject, white space aside, does not begin with re: in any letter case, and replying to a reply adds no second one |
| `DraftMessage.ReplyReadsBack` | src/gmail/client/drafts.rs:348-384 | a reply reads back as the intended headers, whatever headers its source carries |
| `DraftMessage.SubjectShown` | src/gmail/client/drafts.rs:527-533 | when a mail reader shows a subject as it was given: an ASCII subject if and only if that reader finds no word in it; any other if and only if it takes at most 45 bytes of UTF-8 or the reader decodes a word beyond the limit of 75 characters regardless |
| `DraftMessage.SubjectForEveryReader` | src/gmail/client/drafts.rs:527-533 | what holds whatever the reader: an ASCII subject in which no word begins is shown as given by all of them, one with a well-formed UTF-8 word by none |
| `DraftMessage.LongSubjectMisread` | src/gmail/client/drafts.rs:531 | a longer non-ASCII subject is sent as one word beyond that limit (section 2 of RFC 2047), which a strict reader shows as it stands |
| `DraftMessage.SubjectMisread` | src/gmail/client/drafts.rs:527-533 | every nonempty text of up to 45 bytes gives a subject that no reader shows as given: its base64 word, in any letter case of its names, is passed through and shown as the text |
| `DraftMessage.QSubjectMisread` | src/gmail/client/drafts.rs:527-533 | so does every Q word of up to 63 letters and digits |
| `DraftMessage.ReplyMisread` | src/gmail/client/drafts.rs:362-368 | and so does the reply to a message with such a subject: the word behind the prefix is decoded |
| `EncodedWords.ShownAsGiven` | src/gmail/client/drafts.rs:527-533 | for every reader that agrees on well-formed UTF-8 words, whatever it makes of other charsets and of ill-formed, overlong or embedded words: a header value is shown as it stands if and only if none of its tokens is a word to that reader (sections 2 and 6 of RFC 2047) |
| `EncodedWords.QReadsBack` | src/gmail/client/drafts.rs:527-533 | the reader of Q words reads every byte sequence back from its Q encoding (section 4.2 of RFC 2047) |
| `EncodedWords.PiecesApart` | src/gmail/client/drafts.rs:527-533 | tokens are the maximal pieces without spaces and tabs |
| `Texts.ReadBase64Exact` | src/gmail/client/drafts.rs:531 | a text reads as those bytes if and only if it is their padded base64 encoding (section 4 of RFC 4648) |
| `Texts.ReadUtf8Exact` | src/gmail/client/drafts.rs:531 | bytes read as a text if and only if they are its UTF-8 encoding: bad continuation bytes and overlong forms are refused (section 3 of RFC 3629) |
| `Texts.LowerExactly` | src/gmail/responses.rs:294-299 | exactly the 26 ASCII capital letters are folded, each to its own small letter |
| `Texts.TrimExactly` | src/gmail/client/drafts.rs:362-368 | trimming removes white space at both ends and leaves a text that neither begins nor ends with any |
| `DraftMessage.ReplyThreads` | src/gmail/client/drafts.rs:352-383 | whoever parses a reply finds it addressed to the source's Reply-To or else From, under a reply's subject, in answer to the source's Message-ID, and with References made of the source's own, if any, and that ID |
| `Frames.ReadBoundedLine` | src/broker/protocol.rs:156-177 | the result depends on the bytes only, not on the pieces they arrive in; success takes exactly the line from the stream, a failure at most the limit; the same loop reads responses (src/broker/client.rs:924-957) |
| `Frames.FrameIsRead` | src/broker/client.rs:924-957 | a peer reads a written frame whole exactly when it keeps the peer's limit, and stops right behind it |
| `Frames.WriteResponse` | src/broker/protocol.rs:78-85 | every response frame that is sent is accepted by the client's limit; one that would not be is not sent |
| `Frames.WriteBulkRequest` | src/broker/client/bulk.rs:300-321 | a bulk request is refused before sending exactly when the broker would refuse its frame |
| `Requests.WriteRequest` | src/broker/client.rs:423-448 | a single-request client sends every request that passes its field checks, as one frame, whatever its length |
| `RequestReader.FrameCarriesRequest` | src/mcp.rs:17-210 | the frame of every valid single request, read back by operation and field names, is that request; so no two share a frame |
| `Requests.FieldLimits` | src/gmail/models.rs:106-349 | where the field checks draw their lines: 320, 998 and 24,576 characters for a draft, 256 for an ID, 32 for a marker, 50 results and 4,096 characters of a page token |
| `Requests.ListingLimits` | src/gmail/validation.rs:5-45 | and for a listing: 1,024 characters of query, 20 label IDs of 1 to 256 each, 1 to 50 results, 1 to 4,096 characters of page token |
| `Requests.LabelLimits` | src/gmail/mod.rs:81-149 | a label's name must hold more than white space and its ID something, and neither a control character; nothing limits their length |
| `Requests.ListingFits` | src/gmail/validation.rs:5-45 | every valid list or readiness request is accepted: its query, label IDs and page token are limited |
| `Requests.OtherRequestsFit` | src/gmail/models.rs:106-349 | every valid request that names no label is accepted by the broker's frame limit, escaping and four-byte characters included |
| `Requests.LabelRequestAccepted` | src/gmail/mod.rs:81-149 | a valid label request is accepted if and only if the escaped name or ID fits beside a fixed overhead of 39, 43 or, with the message ID, 58 bytes |
| `Requests.LongLabelRefused` | src/gmail/mod.rs:81-149 | so there are valid label requests that are sent and refused: names and IDs of any length from the limit on |
| `Requests.CreateDraftFits` | src/gmail/models.rs:145-165 | every create-draft request that passes its own length checks fits the broker's request frame |
| `Requests.CreateReplyFits` | src/gmail/models.rs:178-187 | so does every create-reply-draft request |

## Left out

- Mutex poisoning, thread panics and the errors for an unavailable store.
- BatchModify.ModifyMessageSet: this method makes its two parallel maps in input order; BatchPhases.PhaseIsInputOrder has the interleavings of one such phase.
- LabelDeletion.DeleteLabels: this method runs the items of a phase one after another; LabelDeletionRuns has the interleavings. Whether an item saw the flag raised is an arbitrary input in both.
- MarkHandlers.MarkDrafts: this method resolves the drafts one after another; MarkWorkers.LookupsShow has the interleavings.
- MarkHandlers.RunMarks: this method runs the items one after another; MarkWorkers has the interleavings.
- MarkHandlers.ExecuteMarked: items run one after another and no other thread moves in between. The interleavings with other handlers are in MarkRuns, to which MarkInterleavings connects the workers of one handler.
- Workers.RunInvariant: the number of workers is not limited there, and the fatal flag an item reads is an arbitrary input; BoundedExecutor and FatalRuns have these.
- WriteOutcomes.RunItem: which token a try carries is not part of the item's own log; ItemTokens joins the two. That the item's 401 is the one its call reports is taken from the source's control flow there.
- FatalRuns.RunInvariant: the number of workers is not limited there, which admits more interleavings than the executor does.
- ProviderGate.DrainServesEveryone: no order among waiters, and no bound while new requests keep arriving.
- DraftMessage.MessageRoundTrip: the final base64url step, the splitting of long encoded words and line-length limits; folded header lines are not parsed, since none is printed.
- MimeWalk.ReadBodyText: base64, charset decoding and HTML conversion are arbitrary functions.
- Frames.ReadBoundedLine: asynchronous scheduling of the client's copy of the loop; the bytes are what matters.
- DraftMessage.SubjectShown: a reader treats each token on its own and shows anything it decodes in fewer characters than the token has, and it shows leading and trailing blanks.
- JsonReader.ValueReadsBack: the reader takes what this broker's writer writes; white space between tokens, negative and fractional numbers and upper-case escapes are not read.
- Requests.OtherRequestsFit: of the field checks only those that bear on size; those of addresses and of blank text are left out.
- ReadBudget.ReadEmails: what fetching one ID does is an arbitrary function of the window, the step and the ID.
- The admission order of bulk requests (validation, account, eligibility, scope, credential) before any handler runs.
- Single-message label and read-state changes, listing and reading of mail, and the tables that map errors to codes and messages.
- HTTP itself, redirects, URL building, OAuth, the account database, key storage, the user interfaces and the control service.
