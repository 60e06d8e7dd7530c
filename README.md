# A verified model of YARA's scan driver

This project models the scan driver of the YARA rule engine (`libyara/rules.c`) in Dafny and proves properties of the model. It covers:

- the Aho-Corasick walk of one memory block (`_yr_rules_scan_mem_block`);
- the allocation of a scan slot in the rule set's 32-bit `tidx_mask`;
- the scan of a list of memory blocks (`yr_rules_scan_mem_blocks`):
  - setup;
  - binding of the external variables;
  - the block loop, with the lazily computed entry point;
  - the condition code;
  - the verdict loop with its callback protocol;
  - the single cleanup path;
- its one-block wrapper (`yr_rules_scan_mem`);
- the cleanup of a slot's matches (`_yr_rules_clean_matches`);
- the four `yr_rules_define_*_variable` operations.

Modules:

- `types.dfy` (`Types`): error codes, blocks, match records, callback messages, and flag words with their set/clear operations.
- `ahocorasick.dfy` (`AhoCorasick`):
  - the packed transition table and its failure links;
  - a specification of the walk as a function (`Walk`) and of the reports the automaton prescribes (`Expected`);
  - the imperative walker `ScanMemBlock`, proved against both.
- `slotmask.dfy` (`SlotMask`): the slot bitmask, the lowest-free-slot search loop, and reservation and release.
- `externals.dfy` (`Externals`): the external-variable list ended by a record of type NULL, its lookup, and the binding loop.
- `verdicts.dfy` (`Verdicts`): the per-rule verdict message, and the callback dispatch loop with its ABORT / ERROR exits.
- `rules.dfy` (`Rules`): the class `RuleSet`.
  - The slot mask is a field the scan reserves and releases.
  - Rule and namespace flags and string match lists are per-slot arrays, updated in place.
  - The define operations update the external array in place.
  - The scan driver is specified by `ExpectedScan`, a function of the state the scan starts in.

Collaborators that are not part of this model are parameters (`Host` in `rules.dfy`), each given as the answers it gives:

- the clock;
- the match verifier (`yr_scan_verify_match`) and what it records;
- the condition code (`yr_execute_code`);
- entry-point detection;
- arena and table creation;
- materialising an external;
- memory faults;
- the user callback.

The model follows these details of the code:

- The externals list ends at a record whose type is NULL (`EXTERNAL_VARIABLE_IS_NULL`), not at a null identifier.
- `yr_rules_define_string_variable`:
  - frees the old string only when the external owns a heap string *and* its pointer is not NULL;
  - returns ERROR_INSUFICIENT_MEMORY when the copy fails, leaving the external owning NULL.
- The cleanup clears UNSATISFIED_GLOBAL only on the namespaces of rules, not on every namespace.
- SCAN_FINISHED is sent only when the verdict loop runs to its end: an ABORT or ERROR answer skips it.

## Model

| member | source | states |
|---|---|---|
| AhoCorasick.Step | libyara/rules.c:259-276 | The state reached on one input byte is always a state of the automaton: following failure links terminates at the root, and an invalid root transition becomes transition 0. |
| AhoCorasick.StateAfter | libyara/rules.c:233-278 | The state after consuming any prefix of the block, starting at the root, is a state of the automaton. |
| AhoCorasick.Advance | libyara/rules.c:259-276 | The state-advance loop of the walker computes exactly `Step`, and terminates because failure links lead to shallower states. |
| AhoCorasick.Emit | libyara/rules.c:237-257 | The match-list loop of one state from record `j` on: before each record, when clocked, a deadline check of its own that stops the walk with ERROR_SCAN_TIMEOUT; a record with `backtrack <= i` is verified at `i - backtrack` and the first error ends the loop. |
| AhoCorasick.Walk | libyara/rules.c:233-301 | The block walk: at each cursor inside the block the clocked match-list loop, then the state advance on the byte; at the end of the block the last state's records are flushed without a deadline check. |
| AhoCorasick.EmitMatches | libyara/rules.c:237-257 | The match-list loop of one state performs exactly the specified emission: a fresh deadline check before every record when the timeout is positive and the cursor is a multiple of 4096, verification of each record with `backtrack <= i` at `i - backtrack`, and a stop on the first error. |
| AhoCorasick.ScanMemBlock | libyara/rules.c:216-302 | The walker's verifier calls and result equal the specified walk, so it issues a prefix of the reports the automaton prescribes (all of them on success) and ends on success, the deadline or the failing call. |
| AhoCorasick.EligibleAt | libyara/rules.c:245-253 | Every report issued at cursor `i` is about one of the state's records and is issued at cursor `i`. |
| AhoCorasick.EmitFollowsEligible | libyara/rules.c:237-257 | Emitting a state's records issues a prefix of its eligible reports in list order, and all of them when no error occurs. |
| AhoCorasick.ExpectedCursors | libyara/rules.c:233-297 | Every report prescribed from cursor `p` on has its cursor between `p` and the block size. |
| AhoCorasick.ExpectedOrdered | libyara/rules.c:233-297 | The prescribed reports come in non-decreasing cursor order. |
| AhoCorasick.WalkFollowsExpected | libyara/rules.c:233-297 | Whatever the clock and verifier answer, the walk issues a prefix of the prescribed reports, and exactly them when it succeeds. |
| AhoCorasick.StateAfterNext | libyara/rules.c:259-276 | Consuming byte `p` moves the state after `p` bytes to the state after `p + 1` bytes. |
| AhoCorasick.EmitEnds | libyara/rules.c:237-257 | One state's emission ends with every call verified and (when clocked) no deadline check fired; or, only when clocked, at the first check that fired, having issued exactly the eligible reports of the records before it; or on the error of its last call with all earlier calls verified. |
| AhoCorasick.WalkEnds | libyara/rules.c:233-301 | A block walk from cursor `p0` either succeeds with every call verified and no deadline check fired; or stops with ERROR_SCAN_TIMEOUT at the first check that fired, before record `j` at a cursor `p` inside the block (a multiple of 4096, positive timeout), having issued exactly the prescribed reports of the cursors before `p` and of the records before `j` at `p`, all verified; or stops on the error of its last verifier call, all earlier calls verified. |
| AhoCorasick.WalkReportsInBlock | libyara/rules.c:245-253 | Every verifier call has `backtrack <= cursor <= size`, so the offset asked about lies in the block, and the calls come in cursor order. |
| AhoCorasick.EmptyBlockFlushesRoot | libyara/rules.c:281-297 | An empty block never consults the clock and only flushes the root state's records with backtrack 0, at offset 0. |
| AhoCorasick.ExpectedStrings | libyara/rules.c:245-253 | Every prescribed report names a string of the rule set when every match record does. |
| AhoCorasick.WalkStringsBelow | libyara/rules.c:245-253 | Every verifier call of a walk names a string of the rule set. |
| AhoCorasick.WalkFromRoot | libyara/rules.c:216-302 | The walk from the root follows the automaton: a prefix of the prescribed reports (all of them on success), ending in one of the three ways of `WalkEnds`, with the timeout's stop point. |
| SlotMask.LowestClearFrom | libyara/rules.c:330-334 | The slot the probe loop stops on from `k` lies between `k` and 32. |
| SlotMask.LowestClearBit | libyara/rules.c:330-334 | The slot a new scan gets is at most 32. |
| SlotMask.LowestClearFromIsLowest | libyara/rules.c:330-334 | Every slot the probe skips is reserved, and the slot it stops on (below 32) is free. |
| SlotMask.LowestClearBitIsLowest | libyara/rules.c:330-339 | The slot handed out is free and every lower slot is reserved; it is 32 exactly when all 32 slots are reserved. |
| SlotMask.FindFreeSlot | libyara/rules.c:320-334 | The allocation loop returns the lowest free slot and its one-bit mask; when all 32 bits are set the probe shifts out to 0 and the loop stops at 32. |
| SlotMask.ProbeNext | libyara/rules.c:330-334 | A probe on a reserved slot is below 32, and shifting it gives the next slot's bit without changing the slot found. |
| SlotMask.ReserveOnlyThatSlot | libyara/rules.c:336-337 | Setting a free slot's bit reserves that slot and leaves every other slot as it was. |
| SlotMask.ReleaseOnlyThatSlot | libyara/rules.c:494-496 | Clearing a slot's bit frees that slot and leaves every other slot as it was. |
| SlotMask.ReleaseUndoesReserve | libyara/rules.c:494-496 | Releasing a slot that was free when it was reserved gives back the mask the scan started from. |
| Externals.EndFrom | libyara/rules.c:51-60 | The search loop stops at the first record of type NULL at or after `k`; every record before it is live. |
| Externals.End | libyara/rules.c:51-60 | The live externals are exactly those before the first record of type NULL. |
| Externals.LookupFrom | libyara/rules.c:51-62 | The search from `k` finds the first live external with the identifier, or reports that no live external from `k` on has it. |
| Externals.Lookup | libyara/rules.c:49-62 | A define operation updates the first live external with the identifier; None means no live external has it. |
| Externals.UpdateKeepsLookup | libyara/rules.c:123-140 | Rewriting a live external's value (and its kind, for strings) keeps the list ended at the same place, and every identifier resolves to the same external afterwards. |
| Externals.SameShapeLookup | libyara/rules.c:51-60 | Lists with identifiers and end markers in the same places end at the same place and resolve every identifier alike. |
| Externals.BindFromIsFirstFailure | libyara/rules.c:374-396 | Binding succeeds exactly when every live external binds, and otherwise fails with the error of the first one that does not. |
| Externals.BindFrom | libyara/rules.c:374-396 | The binding loop from external `k` on: it stops at the end marker with success, or at the first external whose binding fails, with that error. |
| Verdicts.PublicCallsAreThePublicRules | libyara/rules.c:446-473 | The calls the verdict loop can make are exactly the public rules, each once with its own message, in increasing rule order. |
| Verdicts.VerdictMessage | libyara/rules.c:450-458 | A rule's message is RuleMatching when its slot flag carries MATCH and its namespace's does not carry UNSATISFIED_GLOBAL, RuleNotMatching otherwise. |
| Verdicts.DispatchFrom | libyara/rules.c:446-473 | The verdict loop from rule `k` on: private rules are skipped, each public rule gets one callback call with its message, and an ABORT or ERROR answer stops the loop. |
| Verdicts.PhaseResult | libyara/rules.c:464-475 | The verdict phase fails with ERROR_CALLBACK_ERROR exactly when the callback answered ERROR; otherwise it succeeds. |
| Verdicts.Reported | libyara/rules.c:464-475 | The calls of the verdict phase: the loop's calls, then SCAN_FINISHED only when the loop ran to its end. |
| Verdicts.DispatchFollowsPublicCalls | libyara/rules.c:446-473 | The loop reports a prefix of the public rules. It ends early only when its last call was answered with ABORT or ERROR, every earlier call having been answered otherwise. When it runs to the end it has reported every public rule. |
| Verdicts.ScanFinishedOnlyAtTheEnd | libyara/rules.c:446-475 | SCAN_FINISHED is sent exactly when the loop ran to its end, as the very last call. The phase fails with ERROR_CALLBACK_ERROR exactly when the callback answered ERROR; an abort is a success. |
| Rules.RowMessages | libyara/rules.c:446-458 | A rule's message is RuleMatching if and only if its slot flag carries MATCH and its namespace's slot flag does not carry UNSATISFIED_GLOBAL. |
| Rules.FreshFlagsMessages | libyara/rules.c:433-458 | On a clean slot, the messages the verdict loop sends are exactly those the condition code's outcome calls for. |
| Rules.RaisedThenCleared | libyara/rules.c:158-162 | Clearing after the condition code raised its flags gives the same flags as clearing the slot as it was before the scan. |
| Rules.EntryIsFirstFound | libyara/rules.c:399-414 | The entry point is the one found in the first block that has one, and stays undefined exactly when no visited block has one. |
| Rules.RecordLog | libyara/rules.c:416-425 | Recording a walk's verifier calls appends each call's matches to its own string's lists in call order. Every string that gets a first match is registered in the matching-strings arena. |
| Rules.RecordedOnlyItsOwn | libyara/rules.c:247-253 | Under the model of a verifier call (see `Rules.RecordLog` under "## Left out"), a string that no call of a block's walk is about gets nothing recorded from that block. |
| Rules.ClearFlagRows | libyara/rules.c:158-162 | The rule loop of the cleanup clears MATCH on every rule and UNSATISFIED_GLOBAL on every namespace that holds a rule; every other flag and namespace is unchanged. |
| Rules.ClearListRows | libyara/rules.c:164-180 | The arena loop of the cleanup empties both lists of every registered string and leaves every other string's lists as they were. |
| Rules.ClearedRowsAreClean | libyara/rules.c:149-181 | When every string with a match is registered, the cleanup leaves no rule flagged MATCH, no rule's namespace flagged UNSATISFIED_GLOBAL, and every list empty. |
| Rules.EntryBefore | libyara/rules.c:401-414 | The entry point after visiting the first `n` blocks: looked for in each block only while it is still undefined. |
| Rules.BlockTrace | libyara/rules.c:416-425 | The trace of block `k`: no call and ERROR_COULD_NOT_MAP_FILE when its walk faults, the walk of the block with its own clock and verifier otherwise. |
| Rules.BlocksFrom | libyara/rules.c:399-431 | The block loop's result: the result of the first block whose trace fails, or success. |
| Rules.BlocksFromIsFirstFailure | libyara/rules.c:399-431 | The block loop succeeds exactly when every block's trace succeeds, and otherwise fails with the result of the first block that fails (ERROR_COULD_NOT_MAP_FILE for a fault). |
| Rules.BlocksRecorded | libyara/rules.c:399-431 | What the block loop appends to a string's list: the calls of each walked block in turn, up to and including the first block that fails, and nothing after it. |
| Rules.ScanOneBlock | libyara/rules.c:416-428 | One pass of the block loop returns the block's result: ERROR_COULD_NOT_MAP_FILE on a fault, the walk's result otherwise. Every string's lists become their old contents followed by exactly what the block's verifier calls recorded for it (nothing on a fault). It keeps every string with a match registered. |
| Rules.ScanBlockRows | libyara/rules.c:399-431 | The block loop returns the first failing block's result, or success with the entry point of the first block that has one. Every string's lists end as their old contents followed by what each walked block recorded for it, up to and including the first failing block. It keeps every string with a match registered and the arena within the rule set's strings. |
| Rules.RuleSet.constructor | libyara/rules.c:645-650 | A loaded rule set has its tables and externals from the compiled file, no slot in use, and every slot clean. |
| Rules.RuleSet.FindExternal | libyara/rules.c:49-60 | The search loop of the define operations returns exactly `Lookup`: the first live external with the identifier. |
| Rules.RuleSet.DefineIntegerVariable | libyara/rules.c:42-63 | An unknown identifier gives ERROR_INVALID_ARGUMENT and changes nothing. Otherwise the first live external with it gets the integer value, ERROR_SUCCESS is returned, and every lookup is preserved. |
| Rules.RuleSet.DefineBooleanVariable | libyara/rules.c:66-87 | As for integers: the C `int` is stored in the integer member of the union. |
| Rules.RuleSet.DefineFloatVariable | libyara/rules.c:90-111 | As for integers, storing the double's bit pattern in the float member. |
| Rules.RuleSet.DefineStringVariable | libyara/rules.c:114-146 | An unknown identifier gives ERROR_INVALID_ARGUMENT and changes nothing. Otherwise the old value is freed only if it was an owned heap string with a non-NULL pointer, and the external becomes an owned string holding the copy. The result is ERROR_SUCCESS, or ERROR_INSUFICIENT_MEMORY with a NULL pointer when the copy fails. |
| Rules.RuleSet.SetExternal | libyara/rules.c:53-56 | Overwriting a live external with a record of the same identifier keeps the list ended and every lookup as it was. |
| Rules.RuleSet.BindExternals | libyara/rules.c:374-396 | The binding loop returns the first binding error among the live externals, in list order, or success. |
| Rules.RuleSet.ReportVerdicts | libyara/rules.c:446-473 | The verdict loop over a slot makes exactly the calls of the dispatch specification on the messages of the slot's flags, and stops as it says. |
| Rules.RuleSet.RunVm | libyara/rules.c:433-444 | The condition code raises MATCH on the rules it matched and UNSATISFIED_GLOBAL on the namespaces it marked, in its own slot only. On a clean slot, the resulting messages are exactly those its outcome calls for. |
| Rules.RuleSet.CleanMatches | libyara/rules.c:149-181 | The cleanup clears the slot's flags and the lists of every registered string, and touches no other slot. When every string with a match was registered, it leaves the slot clean. |
| Rules.RuleSet.SetupResult | libyara/rules.c:359-396 | The setup's result: the first failure among creating the two arenas and the objects table, in that order, then binding the externals; success otherwise. |
| Rules.RuleSet.ExpectedScan | libyara/rules.c:359-475 | What a scan returns and reports, as a function of the state it starts in: the first failing phase (setup, block loop, condition code) ends it with that error and no callback; otherwise the verdict loop's calls on the raised flags, then SCAN_FINISHED when the loop ran to its end. |
| Rules.RuleSet.ScanBlocks | libyara/rules.c:399-431 | The block loop on the slot's match lists returns the first failing block's result, or success with the entry point of the first block that has one. The slot's lists end as they were followed by what each walked block recorded, up to and including the first failing block. It changes no other slot and keeps every string with a match registered. |
| Rules.RuleSet.RunPhases | libyara/rules.c:359-475 | The setup, the block loop, the condition code and the verdict loop return and report exactly `ExpectedScan`: the first failing phase ends the scan with its error and no callback. The slot's match lists are untouched when the setup fails and otherwise extended by exactly what the block loop records. Only the slot's flags are raised, and every match is registered for the cleanup. |
| Rules.RuleSet.RunAndClean | libyara/rules.c:359-479 | Run with the slot reserved in the mask, which it leaves alone. After the phases and the cleanup, the slot ends with the expected result and calls, every rule's MATCH and every rule namespace's UNSATISFIED_GLOBAL cleared, and a slot that started clean clean again. No other slot changes. |
| Rules.RuleSet.ScanInSlot | libyara/rules.c:336-496 | A scan in a free slot reserves it, scans, cleans up and releases it: the scan and cleanup (`RunAndClean`) require the slot's bit set in the mask and leave the mask alone. The mask is left as it was found and no other slot changes. |
| Rules.RuleSet.ScanMemBlocks | libyara/rules.c:307-501 | An empty block list succeeds without a callback. With all 32 slots taken the result is ERROR_TOO_MANY_SCAN_THREADS and nothing changes. Otherwise the scan runs in the lowest free slot with the result and callbacks of `ExpectedScan`, leaves the slot mask as it found it, and changes no other slot. |
| Rules.RuleSet.ScanMem | libyara/rules.c:504-527 | Scanning a buffer is scanning the single block holding it at base 0, with the same guarantees. |

## Left out

- `yr_rules_scan_file`, `yr_rules_scan_fd` and `yr_rules_scan_proc` are left out. They only map memory and delegate to the modelled scans.
- `yr_rules_load`, `yr_rules_save` and their stream variants are left out beyond the state a load leaves (the constructor). They are arena I/O.
- `yr_rules_destroy` is left out: it only frees memory.
- The mutex, the thread-local slot (`yr_set_tidx`) and concurrency are left out. Reservation and release are modelled as single atomic mask updates.
- Profiling (`yr_rules_print_profiling_info`) is left out.
- The clock is an oracle `expired(k)(i, j)` in place of `time`/`difftime` against the start time. It is keyed by block, cursor and the record's position in the state's match list, so every deadline check gets its own reading. The verifier and what it records are keyed by block index in the same way.
- Match verification (`yr_scan_verify_match`), the condition code (`yr_execute_code`), entry-point detection, `yr_object_from_external_variable` with `yr_hash_table_add`, and arena and table creation are oracles. Their code is not part of this model.
- `yr_modules_unload_all` and the destruction of the arenas and objects table are not modelled: they touch no state of the model.
- Rules.RecordLog: each verifier call is modelled as appending the matches an oracle gives for it to its own string's two lists only, at their ends. `yr_scan_verify_match` is not part of this model, so neither the insertion of a match in offset order nor the moving of a chained string's predecessors' matches from their unconfirmed to their confirmed lists is captured; the exact list effects of `ListsExtended` and `BlocksRecordedIn` hold of this model of the call.
- The matching-strings arena is modelled as the list of strings registered in it. A string is assumed to be registered when the verifier first appends to one of its lists; the code that registers it is not part of this model.
- The condition code is taken to depend only on the entry point. Its reading of the match lists is determined by the blocks, but it is not modelled.
- The condition code's flags are applied even when it fails, in its own slot only; the cleanup clears them afterwards. A failure in the condition code, including a fault caught as ERROR_COULD_NOT_MAP_FILE, is one error value of the oracle.
- A block walk that faults records no matches. What a faulting walk recorded before the fault is not modelled.
- SlotMask.SlotBit: the slot bit is computed on a 32-bit unsigned mask. The code shifts a signed `int` (`1 << tidx`), which overflows for slot 31; the model gives that slot bit 31 as the evident intent.
- When the matching-strings arena could not be created, the cleanup is modelled as walking an empty arena.
- `context.file_size`, the user data pointer and the objects table contents are not modelled.
- Floats are kept as opaque 64-bit patterns. Strings are sequences of characters, without the C terminator.
- The values of SCAN_FLAGS_PROCESS_MEMORY (0x02), RULE_TFLAGS_MATCH (0x01) and NAMESPACE_TFLAGS_UNSATISFIED_GLOBAL (0x01) come from headers that are not part of this model.
- Rules.RuleSet.constructor: that every slot starts clean is assumed of the compiled file; the code that zeroes the per-slot flags is not part of this model.
- Rules.RuleSet.RunAndClean: the flag guarantee covers only namespaces that hold a rule, because the cleanup clears no other namespace.
