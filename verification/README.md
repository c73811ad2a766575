# Verified models of peri's protocols and codecs

This project models the parts of peri whose correctness is hardest to see from the code, and proves
properties of the models for all inputs, all runs and all interleavings.

- **System reminders** (`XmlEscape`, `Metadata`, `Reminder`, `ReminderCodec`, `BlockRoundTrip`,
  `BlockMeaning`, `ReminderMessage`, `MessageTheorems`, `ScanMeaning`, `EmbeddedRoundTrip`,
  `CompactReminder`, `TranscriptProjection`). A printer and a bounded scanner for tagged blocks inside
  arbitrary user text. The central law: reminders written into text are read back in order, and the text
  around them comes back as it was.
- **Command registry** (`CommandName`, `RegistryIndex`, `RegistryState`, `RegistryLifecycle`,
  `RegistryLookup`, `RegistryRemoval`, `RegistryEffects`, `CommandRegistry`, `McpSkills`). A mutable
  two-map index with refusing registration, batches, prefix removal, and a discovery state machine that
  late completions must not disturb.
- **Session runtime** (`SessionMachine`, `SessionSafety`, `SessionTheorems`, `SessionRuntime`).
  Registration, replacement, stamping and the seven-phase destroy, with any number of calls interleaved
  and dropped at their await points.
- **Request table** (`RpcTable`, `RpcTheorems`, `RpcChannel`). Calls over a process's standard streams:
  any number of callers, responses, drains and failed writes interleaved on one table of identifiers.
- **Frame reader** (`FrameReader`), **install protocol** (`ArtifactInstall`), **judge repair**
  (`JudgeRepair`) and **file URIs** (`FileUri`).

`Wrappers` and `Text` hold shared types and the string operations of the standard library; `UnicodeSpace`
proves that their white space is that of the Unicode standard.

## How the models are built

- Code that loops or changes state is a method or a class; each such method is proved equal to a
  function of its inputs or of the old state, and the theorems are about that function. Lemmas named
  `...Means`, `...Exactly` and `...Decides` state what such a function comes to in terms of its inputs
  alone, so that the two cannot go wrong together.
- In the reminder modules and in `FileUri` a Rust string is the sequence of its UTF-8 bytes, each written
  as the character with that code, so every length is a byte length. Unicode whitespace is recognised by
  its byte sequences. The registry works on Unicode characters.
- The JSON library is a parameter: three printing and three parsing functions. Round trips assume that
  the library reads back what it printed for the values at hand (`JsonCodec.Inverts`), nothing else.
- Shared references (connection handles, session entries, clocks) are identities that are equal exactly
  when the references are.
- Session destruction, package installation and the request table are state machines over atomic steps.
  In the runtime a step is a locked section or the return of an awaited operation; the last stretch of a
  destroy call, which has no await point, is cut into four steps, so more interleavings are covered than
  the locks allow. Dropping a call is possible exactly at the awaits of the lock, the join and the persistence.
- The change callback of the registries is a counter of its calls.
- Validation of an entry is a pure function, so the batch operations of the registry do it in the same
  pass as the conflict check. The read-locked pre-check of a source completion answers as the check
  under the write lock does when nothing runs in between, and is one with it here.

## Properties that fail, and exactly when they hold

The encoder bounds the attribute text by 24 KiB; the parser bounds the position of the closing bracket,
which also counts the 16 bytes of the tag name. `EmbeddedExactly` proves that any number of encoded
reminders in any text free of the tag name are read back, with that text, if and only if every header is
at least 16 bytes below the bound (`HeaderFits`), there are at most 64 of them, and the whole is within
the input bound. `FirstOverlongStops` says what happens otherwise: from the first overlong header on,
everything, later reminders included, stays in the user's text. `RoundTripExactly` is the case of one
reminder alone, and `OverlongFails` gives a reminder in the gap.

A legacy compact message is shown to the model in chunks, one wrapped chunk to a line. `MessageSurvives`
proves that reading what is shown gives the message back, and the line ends between the chunks as user
text, if and only if the escaped message and 36 bytes for each chunk are within the input bound plus one.

Draining the request table when the reader ends is meant to leave no call waiting. `LastDrainExactly`
proves that the last drain answers a call if and only if it is in the table under a key the drain copied,
unless its write fails; `LateRequestWaits` gives the run in which a call enters the table just after a
drain, is written without an error, and waits until the next drain. `JsExecutionHost::wait` and
`terminate_and_wait` (`peri-js-runtime/src/host.rs`, lines 190 and 211) drain again, so such a call ends
when the host is waited for or stopped.

A verbatim Windows path that names neither a drive nor a network share does not come back: `VerbatimBack`
says what every such path becomes, and `VerbatimExactly` proves when that is the plain form.

Two branches of `peri-js-runtime/src/rpc.rs` are never taken: the second length check on a finished line
(line 287), as `ReadFrames` proves, and the answer "pending request cancelled" (line 99) before 2^64 calls
have been made, as `ResultsAreAnswers` proves. A call that is dropped while it waits leaves its entry in
the table until a response or a drain takes it out.

## Model

| member | source | states |
|---|---|---|
| XmlEscape.EscapeIsSubstitution | peri-acp-types/src/system_reminder.rs:739-746 | the five passes equal one substitution per character |
| XmlEscape.EscapeClean | peri-acp-types/src/system_reminder.rs:739-746 | escaped text has no raw markup character and is at most six times as long |
| XmlEscape.UnescapeEscape | peri-acp-types/src/system_reminder.rs:748-772 | unescaping undoes escaping for every text |
| XmlEscape.EscapeUnescape | peri-acp-types/src/system_reminder.rs:739-772 | escaping undoes unescaping on every decodable text free of raw markup, so the two are a bijection |
| XmlEscape.UnescapeXmlLoop | peri-acp-types/src/system_reminder.rs:748-772 | the jumping scan computes the character-by-character meaning, rejecting what that rejects |
| Metadata.MetadataAcceptance | peri-acp-types/src/system_reminder.rs:226-263 | the worklist accepts exactly the objects within the recursively defined node, depth and byte bounds, and every error names a bound that is exceeded |
| Metadata.WalkDecides | peri-acp-types/src/system_reminder.rs:232-262 | from any pending stack the walk passes exactly when the totals over the stack are within bounds |
| Metadata.ValidateMetadataLoop | peri-acp-types/src/system_reminder.rs:226-263 | the loop over the stack, with its early exits in order |
| BlockRoundTrip.ValidateAcceptance | peri-acp-types/src/system_reminder.rs:184-216 | validation passes exactly for well-formed reminders, stated without the order of the checks |
| BlockRoundTrip.PrintedParses | peri-acp-types/src/system_reminder.rs:685-701 | every list of distinct valid names with arbitrary values reads back from its printed form |
| BlockRoundTrip.CanonicalBlockParses | peri-acp-types/src/system_reminder.rs:619-683 | a printed header and body read back as the reminder they were printed from |
| BlockRoundTrip.CanonicalHasTheNine | peri-acp-types/src/system_reminder.rs:644-682 | a block counts as canonical only with exactly the nine known attributes, each once |
| BlockMeaning.LayoutParses | peri-acp-types/src/system_reminder.rs:685-701 | attributes are read in order however they are laid out: any white space or none between them, any spelling of their values |
| BlockMeaning.ParsedIsLayout | peri-acp-types/src/system_reminder.rs:685-701 | and nothing else is read: whatever parses is laid out like that |
| BlockMeaning.LegacyExactly | peri-acp-types/src/system_reminder.rs:619-642 | a tag without attributes is the fixed legacy reminder with its decoded body, if and only if the body decodes within bounds |
| BlockMeaning.UnreadableIsRefused | peri-acp-types/src/system_reminder.rs:644-646 | a tag whose attributes do not parse or name no version number is no block |
| BlockMeaning.OtherVersionIsOpaque | peri-acp-types/src/system_reminder.rs:645-652 | a tag of any other version is an opaque block, whatever else it holds |
| BlockMeaning.CanonicalExactly | peri-acp-types/src/system_reminder.rs:653-682 | a block is a given canonical reminder if and only if nine attributes, in any order, and the body say so and the reminder is valid |
| BlockMeaning.NumberExactly | peri-acp-types/src/system_reminder.rs:645 | a version is the decimal form of a 16-bit number, possibly with zeros and one plus sign in front |
| UnicodeSpace.LeadingSpaceExactly | peri-acp-types/src/system_reminder.rs:580 | a text starts with white space exactly if it starts with the UTF-8 form of a character with that property |
| BlockMeaning.EncodeDecides | peri-acp-types/src/system_reminder.rs:506-535 | encoding succeeds exactly within both bounds on well-formed reminders, with this text; the error says which fails first |
| BlockMeaning.LegacyEncodeDecides | peri-acp-types/src/system_reminder.rs:494-503 | the same for the legacy encoder |
| BlockMeaning.ValidateNamesFirst | peri-acp-types/src/system_reminder.rs:184-216 | validation names the first rule that is broken |
| ReminderCodec.ParseAttributesLoop | peri-acp-types/src/system_reminder.rs:685-701 | the attribute loop computes the recursive reading |
| ReminderMessage.ParseMessageLoop | peri-acp-types/src/system_reminder.rs:546-612 | the scanning loop with its early returns computes the cut of the message into kept text and blocks |
| MessageTheorems.PreserveKeepsText | peri-acp-types/src/system_reminder.rs:545-617 | untrusted text comes through unchanged, for every input |
| MessageTheorems.TrustedRebuilds | peri-acp-types/src/system_reminder.rs:545-612 | putting the raw blocks back between gaps of the kept text rebuilds every input |
| MessageTheorems.ParsedAreBlocks | peri-acp-types/src/system_reminder.rs:562-608 | at most 64 reminders come back, each cut from a complete block within all limits |
| MessageTheorems.BlockIsTaken | peri-acp-types/src/system_reminder.rs:569-608 | every complete block within the limits is taken, whatever follows it |
| MessageTheorems.ParsedClaims | peri-acp-types/src/system_reminder.rs:619-683 | legacy text only ever yields the fixed legacy reminder, canonical text a valid one, other versions none |
| ScanMeaning.MessageMeans | peri-acp-types/src/system_reminder.rs:546-612 | however a text is cut into plain text, longer tag names, refused blocks, blocks and an ending, exactly the blocks come back in order and everything else stays; only the endings stop the scan, and which of them report the limit |
| ScanMeaning.EveryTextIsCut | peri-acp-types/src/system_reminder.rs:546-612 | every text is cut in some such way, so this says what every message comes to |
| EmbeddedRoundTrip.WovenParses | peri-acp-types/src/system_reminder.rs:546-612 | up to 64 blocks in any text free of the tag name: exactly these blocks in order, exactly the text between them |
| EmbeddedRoundTrip.EmbeddedExactly | peri-acp-types/src/system_reminder.rs:506-701 | encoded reminders embedded in text come back in order and leave the gaps concatenated, if and only if every header fits, they are at most 64 and the text is within the input bound |
| EmbeddedRoundTrip.FirstOverlongStops | peri-acp-types/src/system_reminder.rs:574-578 | the reminders before the first overlong header come back, everything from the text before it on stays, and the limit is reported |
| EmbeddedRoundTrip.OverfullParses | peri-acp-types/src/system_reminder.rs:564-568 | with more than 64 blocks the first 64 are taken, the limit is reported and the rest stays in the text |
| EmbeddedRoundTrip.RoundTripExactly | peri-acp-types/src/system_reminder.rs:526-578 | one encoded reminder is read back if and only if its header fits the parser's bound; otherwise the text stays |
| EmbeddedRoundTrip.OverlongFails | peri-acp-types/src/system_reminder.rs:526-578 | a reminder the encoder accepts and the parser refuses |
| EmbeddedRoundTrip.LegacyIsBlock | peri-acp-types/src/system_reminder.rs:494-503 | whatever the legacy encoder writes is a block that reads back as its body |
| CompactReminder.FormatsRecognised | peri-acp-types/src/compact_reminder.rs:20-38 | the three historical headers are recognised, each as its kind |
| CompactReminder.RecognisedExactly | peri-acp-types/src/compact_reminder.rs:20-38 | no other text is recognised |
| CompactReminder.ChunksPartition | peri-acp-types/src/compact_reminder.rs:39-62 | chunks are whole UTF-8, non-empty, at most 8 KiB, all but the last within three bytes of full, and concatenate to the message |
| CompactReminder.LegacyCompactReminders | peri-acp-types/src/compact_reminder.rs:12-63 | the chunking loop computes the partition, wrapped in the recognised kind; nothing for other messages |
| CompactReminder.FindChunkEnd | peri-acp-types/src/compact_reminder.rs:43-46 | stepping back finds the last character boundary within the bound |
| CompactReminder.PipelineKeepsText | peri-acp-types/src/compact_reminder.rs:39-62 | the reminders carry the chunks in order and every one is valid |
| CompactReminder.ChunkRoundTrips | peri-acp-types/src/system_reminder.rs:494-503 | every chunk encodes without error and its encoding parses back to exactly the chunk |
| TranscriptProjection.ProjectionNeverFails | peri-agent/src/session/transcript.rs:80-100 | showing a message never fails, and changes it only if it is recognised |
| TranscriptProjection.MessageSurvives | peri-agent/src/session/transcript.rs:82-100 | the chunks of a recognised message, wrapped and joined by line ends, read back to bodies that concatenate to the message, with the line ends as user text, if and only if the joined text is within the input bound, stated in terms of the message |
| CommandName.FullNameIsLower | peri-acp-types/src/command_name.rs:132-229 | the canonical full name of a parsed text is its lower-cased form |
| CommandName.LowerMeans | peri-acp-types/src/command_name.rs:132-194 | lower-casing forgets the case of the ASCII letters and nothing else |
| CommandName.ParseIgnoresCase | peri-acp-types/src/command_name.rs:132-194 | parsing depends on the lower-cased text only, errors included |
| CommandName.FullNameParses | peri-acp-types/src/command_name.rs:132-229 | a full name parses back to the name it was printed from |
| CommandName.ParsedShape | peri-acp-types/src/command_name.rs:132-194 | a parsed text has no whitespace, and is bare exactly when it has no colon |
| CommandName.ParseMeans | peri-acp-types/src/command_name.rs:132-194 | what a text of given segments parses to, and which of its errors is reported |
| RegistryIndex.ProvenanceDecides | peri-acp-types/src/command_registry.rs:632-666 | a source can register exactly the names below its own segments |
| RegistryIndex.PrepareDecides | peri-acp-types/src/command_registry.rs:632-695 | when an entry is accepted, malformed, or not its source's to register |
| RegistryIndex.NamesMeaning | peri-acp-types/src/command_registry.rs:632-725 | an entry claims its lower-cased aliases and, in the core and ui domains, its bare name, and nothing else |
| RegistryIndex.RegisterDecides | peri-acp-types/src/command_registry.rs:151-167 | registration is refused exactly on malformed entries and owned keys or names, without changing anything; otherwise it adds this entry |
| RegistryIndex.DomainsDisjoint | peri-acp-types/src/command_registry.rs:120-125 | no text is both a key and an alias |
| RegistryState.ReachableInv | peri-acp-types/src/command_registry.rs:151-781 | on every reachable state the alias index is exactly the names the entries claim, and keys are canonical |
| RegistryState.BatchCounts | peri-acp-types/src/command_registry.rs:176-224 | a batch grows the registry by its length minus its errors |
| RegistryState.BatchAdds | peri-acp-types/src/command_registry.rs:176-224 | a batch keeps what was registered, and everything new comes from it |
| RegistryState.SilentStepsKeepEntries | peri-acp-types/src/command_registry.rs:116-119 | a step that does not call the callback has not changed the index |
| RegistryEffects.FiresExactly | peri-acp-types/src/command_registry.rs:116-119 | exactly when each operation calls the callback, in terms of what it changed |
| RegistryEffects.BatchInOrder | peri-acp-types/src/command_registry.rs:176-224 | a batch is its entries registered one after the other, with their errors in order |
| RegistryEffects.ReconcileInOrder | peri-acp-types/src/command_registry.rs:291-338 | a reconciliation is its unregistrations one after the other and then the batch |
| RegistryEffects.ReconcileCounts | peri-acp-types/src/command_registry.rs:291-338 | the two counts are how much the registry shrinks and grows |
| RegistryEffects.StartMeans | peri-acp-types/src/command_registry.rs:469-494 | starting stores the handle and withdraws exactly the entries of a discovered source |
| RegistryEffects.ProjectMeans | peri-acp-types/src/command_registry.rs:403-454 | a projection reports a dropped source and asks, in order, for exactly the sources that are new or have another handle |
| RegistryEffects.CompleteMeans | peri-acp-types/src/command_registry.rs:513-583 | a current completion clears the prefix and registers the batch, any other changes nothing |
| RegistryEffects.CompleteCounts | peri-acp-types/src/command_registry.rs:513-583 | the reported count is what was added to the entries outside the prefix |
| RegistryEffects.ClearMeans | peri-acp-types/src/command_registry.rs:588-598 | clearing forgets exactly a source started with this handle |
| RegistryRemoval.UnregisterRemoves | peri-acp-types/src/command_registry.rs:232-247 | exactly the entry under the lower-cased name and the names pointing to it are gone |
| RegistryRemoval.NamespaceRemoves | peri-acp-types/src/command_registry.rs:257-278 | the same for everything below the lower-cased prefix |
| RegistryRemoval.ReconcileRemoves | peri-acp-types/src/command_registry.rs:291-338 | the same for the stale names, before the batch is registered |
| RegistryRemoval.RemovedIsUnreachable | peri-acp-types/src/command_registry.rs:348-370 | after a removal every input resolves as before, except that removed entries are not found by any of their names |
| RegistryLifecycle.LifecycleSafe | peri-acp-types/src/command_registry.rs:403-598 | for any set of source prefixes, if entries below one of them are added only by completing it, an entry below it exists only while that source is discovered |
| RegistryLifecycle.LateCompletionHarmless | peri-acp-types/src/command_registry.rs:496-583 | a completion overtaken by a reconnect changes nothing at any later time |
| RegistryLifecycle.CompletionReplaces | peri-acp-types/src/command_registry.rs:545-578 | after a completion only entries of this discovery remain below its prefix, all others are kept |
| RegistryLifecycle.ProjectionSettles | peri-acp-types/src/command_registry.rs:403-454 | a projection keeps only connected sources, removes exactly the entries of the gone ones, and asks for exactly the sources without their current handle |
| RegistryLookup.LookUpIsSearch | peri-acp-types/src/command_registry.rs:358-364 | the index finds what a linear search finds, and there is never a second candidate |
| RegistryLookup.ResolveIsSearch | peri-acp-types/src/command_registry.rs:348-370 | resolving is that search for the lower-cased name with the trimmed arguments |
| RegistryLookup.LexMeans | peri-acp-types/src/command_registry.rs:348-353 | behind any slashes, the text up to the first space is the name and the rest the arguments, both trimmed |
| RegistryLookup.TrimMeans | peri-acp-types/src/command_registry.rs:350-353 | trimming takes exactly the white space off both ends and keeps what is inside |
| RegistryLookup.SlashTyped | peri-acp-types/src/command_registry.rs:348-370 | what any word typed behind a slash resolves to: the lookup of its lower-cased form without leading slashes |
| RegistryLookup.RegisteredIsReachable | peri-acp-types/src/command_registry.rs:348-370 | every registered name can be typed in any case behind a tab, with arguments, and behind a slash exactly if the entry answers to it without its leading slashes |
| CommandRegistry.Registry.Register | peri-acp-types/src/command_registry.rs:151-167 | the method performs the register step, one callback exactly on success |
| CommandRegistry.Registry.RegisterAll | peri-acp-types/src/command_registry.rs:176-224 | a batch equals registering in sequence, errors in order, one callback exactly when something was added |
| CommandRegistry.Registry.Unregister | peri-acp-types/src/command_registry.rs:232-247 | removes exactly the entry under the name with the names pointing to it, and calls the callback exactly if there was one |
| CommandRegistry.Registry.UnregisterNamespace | peri-acp-types/src/command_registry.rs:257-278 | removes everything below the prefix and reports how much |
| CommandRegistry.Registry.Reconcile | peri-acp-types/src/command_registry.rs:291-338 | equals unregistering and then registering in sequence, with one callback exactly on change |
| CommandRegistry.Registry.InsertEntry | peri-acp-types/src/command_registry.rs:727-740 | the loop adds the entry and points all its names at it |
| CommandRegistry.Registry.RemoveIndexEntries | peri-acp-types/src/command_registry.rs:745-757 | the loop removes exactly the names that point to the key |
| CommandRegistry.Registry.UnregisterPrefixLocked | peri-acp-types/src/command_registry.rs:764-781 | removes everything below a prefix, in any order of the keys |
| CommandRegistry.Registry.ResolveInput | peri-acp-types/src/command_registry.rs:348-370 | computes the resolution |
| CommandRegistry.Registry.ProjectSources | peri-acp-types/src/command_registry.rs:403-454 | the loops compute the projection whatever the order of the removals |
| CommandRegistry.Registry.ListToDiscover | peri-acp-types/src/command_registry.rs:427-437 | the loop lists what is new or has another handle, in order |
| CommandRegistry.Registry.MarkSourceStarted | peri-acp-types/src/command_registry.rs:469-494 | withdraws the entries of a discovered source and stores the new handle |
| CommandRegistry.Registry.MarkSourceCompleted | peri-acp-types/src/command_registry.rs:513-583 | applies a current completion and ignores any other |
| CommandRegistry.Registry.ClearSourceStarted | peri-acp-types/src/command_registry.rs:588-598 | removes only the started state of this handle |
| McpSkills.MachinesStayInStep | peri-acp-types/src/mcp_skills.rs:70-243 | the same actions leave both discovery machines with the same states and handles, however interleaved with refreshes |
| McpSkills.ProjectionsAgree | peri-acp-types/src/mcp_skills.rs:70-107 | both projections return the same discoveries and removals |
| McpSkills.SilentStepsKeepOffers | peri-acp-types/src/mcp_skills.rs:109-230 | a step that does not notify leaves the offered skill names as they were |
| McpSkills.StepMeans | peri-acp-types/src/mcp_skills.rs:70-243 | what every step does to any server |
| McpSkills.OfferedMeans | peri-acp-types/src/mcp_skills.rs:145-183 | a server offers the lower-cased names of its stored skills |
| McpSkills.StepFiresExactly | peri-acp-types/src/mcp_skills.rs:70-243 | exactly when every step notifies |
| McpSkills.McpSkillRegistry.ProjectConnected | peri-acp-types/src/mcp_skills.rs:70-107 | the projection step with its result and notification |
| McpSkills.McpSkillRegistry.MarkDiscoveryStarted | peri-acp-types/src/mcp_skills.rs:119-143 | the start step; true exactly for the call that has to spawn |
| McpSkills.McpSkillRegistry.MarkDiscoveryCompleted | peri-acp-types/src/mcp_skills.rs:147-183 | the completion step, notifying exactly when the offered names change |
| McpSkills.McpSkillRegistry.RefreshEntries | peri-acp-types/src/mcp_skills.rs:192-230 | replaces entries only of a discovered server with this handle |
| McpSkills.McpSkillRegistry.ClearDiscoveryStarted | peri-acp-types/src/mcp_skills.rs:234-243 | removes only the started state of this handle |
| SessionTheorems.DrainedAtMostOnce | peri-runtime/src/runtime.rs:247-294 | over all interleavings and cancellations one registration is drained by at most one call, and every other call returns no events |
| SessionTheorems.DestructionOrder | peri-runtime/src/runtime.rs:238-294 | the phases happen in order, abort exactly on a missed deadline, nothing drained before persistence; failed and dropped calls drain, stamp and remove nothing and free the lock |
| SessionTheorems.OnlyCapturedIsRemoved | peri-runtime/src/runtime.rs:285-291 | a mapping disappears only by the removal step of a call that captured the entry it still holds |
| SessionTheorems.CompletedIsUnmapped | peri-runtime/src/runtime.rs:285-293 | a completed entry is never mapped again |
| SessionTheorems.SequencesAreDense | peri-runtime/src/runtime.rs:59-73 | the envelopes of one clock are numbered without gap or repeat up to saturation, for one session; a destroy returns a stretch of them, exactly the events it drained in their order |
| SessionTheorems.MappedKeepsClock | peri-runtime/src/runtime.rs:129-140 | a session keeps its clock as long as it is mapped, through any replacement |
| SessionTheorems.RegisterMeans | peri-runtime/src/runtime.rs:101-119 | a new session gets a fresh entry with this handle on a new clock from 1, everything else unchanged; a mapped one changes nothing |
| SessionTheorems.ReplaceMeans | peri-runtime/src/runtime.rs:129-140 | the session gets a fresh entry with exactly this handle, on its old clock if it was mapped, everything else unchanged |
| SessionTheorems.RecordIsTrue | peri-runtime/src/runtime.rs:262-275 | over any run joins and persistence are recorded as they came out, and an abort follows exactly a missed deadline |
| SessionTheorems.CancelMeans | peri-runtime/src/runtime.rs:257-275 | a call can be dropped exactly at its three awaits; that frees its lock and changes nothing else |
| SessionSafety.ApplyKeeps | peri-runtime/src/runtime.rs:101-294 | every step keeps the invariant tying locks, phases, mapping and drains together |
| SessionRuntime.Runtime.Destroy | peri-runtime/src/runtime.rs:247-294 | undisturbed: unknown session or failed persist with nothing changed, else the drained events in order, numbered on from the session's clock, the session unmapped and its entry completed |
| SessionRuntime.Runtime.Register | peri-runtime/src/runtime.rs:101-119 | registers on a new clock or reports the session as taken |
| SessionRuntime.Runtime.RegisterOrReplace | peri-runtime/src/runtime.rs:129-140 | the method has exactly that effect |
| SessionRuntime.Runtime.Stamp | peri-runtime/src/runtime.rs:169-180 | stamps the next number of the session's clock, or reports the session as unknown |
| SessionRuntime.Runtime.StampDrained | peri-runtime/src/runtime.rs:278-284 | the loop stamps the drained events in order |
| SessionRuntime.Runtime.LockGranted | peri-runtime/src/runtime.rs:258-266 | a completed entry answers at once, otherwise intake is stopped and tasks are cancelled |
| SessionRuntime.Runtime.PersistReturned | peri-runtime/src/runtime.rs:271-275 | a failed persist ends the call with an error and frees the lock |
| SessionRuntime.Runtime.RemoveMapping | peri-runtime/src/runtime.rs:285-291 | removes the mapping only while it holds the captured entry |
| FrameReader.ReadFrames | peri-js-runtime/src/rpc.rs:233-316 | what is handed on depends on the concatenation of the reads only, with lines, limit and UTF-8 stops as for the whole stream |
| FrameReader.ReadFrame | peri-js-runtime/src/rpc.rs:238-277 | one frame: never longer than the bound plus one, refused exactly when the stream's first frame is too long, the rest of the stream untouched |
| FrameReader.SentLinesArrive | peri-js-runtime/src/rpc.rs:278-313 | lines sent with either line end arrive as sent, an unfinished tail is dropped |
| FrameReader.LongLineStops | peri-js-runtime/src/rpc.rs:263-273 | a line too long for the bound stops the reader with the limit, whatever follows |
| FrameReader.BadLineStops | peri-js-runtime/src/rpc.rs:297-307 | a line that is not UTF-8 stops the reader after the lines before it |
| RpcTheorems.FirstReplyAnswers | peri-js-runtime/src/rpc.rs:84-101 | a registered call gets the reply of the first response with its identifier and nothing before it, whatever other calls and drains do meanwhile |
| RpcTheorems.SettledForGood | peri-js-runtime/src/rpc.rs:147-192 | over any run a call is settled at most once, by response, drain or failed write |
| RpcTheorems.ResultsAreAnswers | peri-js-runtime/src/rpc.rs:84-101 | a call returns exactly what came through its channel, the table holds exactly the unsettled senders, and no call is abandoned before identifiers wrap around |
| RpcTheorems.DrainSettlesAll | peri-js-runtime/src/rpc.rs:147-162 | an ended drain has settled every call that was in the table when it began, although its copy of the keys is not a snapshot |
| RpcTheorems.LastDrainExactly | peri-js-runtime/src/rpc.rs:147-162 | with the reader stopped, the last drain answers exactly the calls in the table under a key it copied, with its reason, unless their write failed |
| RpcTheorems.LateRequestWaits | peri-js-runtime/src/rpc.rs:84-101 | a call of any allowed length that enters the table just after a drain waits until another drain begins |
| RpcTheorems.AnswerComesBack | peri-js-runtime/src/rpc.rs:84-192 | a result written by the peer for a waiting call is what that call returns, whatever happens between |
| RpcTheorems.RefusalComesBack | peri-js-runtime/src/rpc.rs:84-192 | the same for an error the peer answers with |
| RpcTheorems.DrainedCallFails | peri-js-runtime/src/rpc.rs:147-162 | a waiting call a drain takes out fails with code -32000 and the reason of the drain |
| RpcTheorems.EveryAnswerHasASource | peri-js-runtime/src/rpc.rs:84-192 | over any run, every result is that of a response frame with the call's identifier, every error that of such a frame or of a drain |
| RpcTheorems.ArriveMeans | peri-js-runtime/src/rpc.rs:165-192 | where every frame goes and what it changes |
| RpcTheorems.ResponseExactly | peri-js-runtime/src/rpc.rs:195-217 | when a frame is a response, and which |
| RpcTheorems.RequestExactly | peri-js-runtime/src/rpc.rs:195-226 | when a frame is a request, and which |
| RpcTheorems.NumbersInOrder | peri-js-runtime/src/rpc.rs:75-86 | calls are numbered from 1 in order, so no two share an identifier before 2^64 |
| RpcTable.ApplyKeeps | peri-js-runtime/src/rpc.rs:66-192 | every step keeps the table's agreement with the callers and drains, and moves no settled call |
| RpcChannel.Channel.DrainPending | peri-js-runtime/src/rpc.rs:147-162 | undisturbed, the table is empty afterwards and exactly the calls in it were told the reason; it is a run of the machine |
| RpcChannel.Channel.HandleIncoming | peri-js-runtime/src/rpc.rs:165-192 | a response settles its call, strays and requests are handed on, a malformed frame drains the table |
| RpcChannel.Channel.WriteReturned | peri-js-runtime/src/rpc.rs:92-95 | a write that is too long or fails takes the call's entry out |
| RpcChannel.Channel.Register | peri-js-runtime/src/rpc.rs:85-91 | entering the table, replacing a sender under a reused identifier |
| ArtifactInstall.StepIsSafe | peri-js-runtime/src/artifact.rs:181-247 | only the lock holder changes the target or starts an installer, an ensure never removes a valid target, success means a valid target |
| ArtifactInstall.OneInstaller | peri-js-runtime/src/artifact.rs:152-179 | at most one process is inside the protected part |
| ArtifactInstall.ValidIsEnough | peri-js-runtime/src/artifact.rs:186-192 | an ensure on a valid target succeeds at its first check whoever holds the lock |
| ArtifactInstall.ValidStays | peri-js-runtime/src/artifact.rs:181-225 | a valid target stays valid and no installer starts until a quarantine, for any processes, interleavings and crashes |
| ArtifactInstall.PackagesConserved | peri-js-runtime/src/artifact.rs:181-247 | every published package is in place or has been retired |
| ArtifactInstall.OneWinner | peri-js-runtime/src/artifact.rs:181-225 | without quarantines a whole run publishes at most one package |
| ArtifactInstall.SharedHome.EnsureInstall | peri-js-runtime/src/artifact.rs:181-225 | undisturbed, it succeeds at once on a valid target and otherwise exactly when every operation it needs does, and fails as the first that does not |
| ArtifactInstall.SharedHome.Quarantine | peri-js-runtime/src/artifact.rs:227-247 | undisturbed, the target is gone unless the move failed |
| JudgeRepair.RepairIsLegal | e2e/helpers/judge.ts:122-158 | in every output each backslash starts a legal escape |
| JudgeRepair.EscapesExactly | e2e/helpers/judge.ts:122-158 | the legal escapes are those of the standard |
| JudgeRepair.RepairFixpoints | e2e/helpers/judge.ts:122-158 | exactly the legal texts are left unchanged, and repairing twice is repairing once |
| JudgeRepair.RepairKeepsMeaning | e2e/helpers/judge.ts:122-158 | the repaired text decodes to the original with stray backslashes taken literally |
| JudgeRepair.RepairLoop | e2e/helpers/judge.ts:122-158 | the index loop computes the repair |
| FileUri.DecodeEncode | peri-lsp/src/uri.rs:108-138 | percent-decoding undoes percent-encoding for all bytes |
| FileUri.EncodedIsUriText | peri-lsp/src/uri.rs:108-119 | an encoded text has only unreserved characters, slashes, colons and percent signs followed by two upper-case digits |
| FileUri.EncodesBytewise | peri-lsp/src/uri.rs:108-119 | exactly the texts of those characters come out unchanged, and every other byte as three |
| FileUri.UriIsUriText | peri-lsp/src/uri.rs:61-81 | the same of the URI of every path |
| FileUri.DecodesFromFront | peri-lsp/src/uri.rs:122-138 | a percent sign with two digits of either case stands for a byte, everything else for itself |
| FileUri.PercentEncodeLoop | peri-lsp/src/uri.rs:108-119 | the loop computes the byte-wise encoding |
| FileUri.PercentDecodeLoop | peri-lsp/src/uri.rs:122-138 | the index loop computes the decoding, keeping percent signs that start no triple |
| FileUri.DriveRoundTrips | peri-lsp/src/uri.rs:62-104 | drive paths come back with backslashes |
| FileUri.VerbatimDriveRoundTrips | peri-lsp/src/uri.rs:62-104 | verbatim drive paths come back in plain form |
| FileUri.NetworkRoundTrips | peri-lsp/src/uri.rs:62-104 | network paths come back if and only if the authority is neither drive-shaped nor empty |
| FileUri.VerbatimNetworkRoundTrips | peri-lsp/src/uri.rs:62-104 | verbatim network paths come back in plain form under the same condition |
| FileUri.VerbatimExactly | peri-lsp/src/uri.rs:62-104 | what every other verbatim path comes back as, and that this is the plain form if and only if it names a drive or goes on with two slashes and an authority |

## Left out

- The JSON text of audiences, summaries and metadata, and JSON decoding of whole reminders: the library is a parameter.
- The reminder filter and the trusted factory: single-branch precedence; encoding is modelled for every valid reminder, trusted or not.
- Unicode case mapping: the registry lower-cases ASCII letters only, because full lower-casing depends on context.
- The JSON text of RPC frames and the writing itself: a frame is what the field lookups find in it, and the outcome of a write is given.
- The sorted snapshot of the registry, skill lookup by name, entry metadata that no operation looks at, and log output.
- Locks of the registries: each operation is one atomic step, as the write locks make it.
- `path_to_uri` made absolute by the operating system, and the lossy decoding of byte sequences that are not UTF-8.
- A frame bound of the largest machine word, where adding one saturates: no frame of that length fits into memory.
- Errors of the underlying read and a closed receiver in the frame reader: both stop the loop.
- File-system effects other than the state of the target and the lock: staging directories, the fallback launch, and changes made by programs that do not take the lock.
- What a handle's intake, tasks, join, persistence and drain do: their results are inputs of the steps.
- SessionTheorems.SequencesAreDense: says nothing about numbers across a destroy followed by a new registration, because a new clock starts at 1 by design.
- RegistryLifecycle.LifecycleSafe: assumes that callers add an entry below a source only by completing that source; the code leaves this to them.
- EmbeddedRoundTrip.EmbeddedExactly: the text between the reminders must not contain the tag name; what messages with such text come to is `ScanMeaning.MessageMeans`.
