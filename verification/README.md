# GTLibCpp in Dafny

GTLibCpp reads, writes, scans and "freezes" the memory of another process and puts a JSON-RPC agent in
front of these operations. This project models the algorithms behind the operating-system calls and
proves what they promise. All modules share one memory: a map from 64-bit addresses to bytes, guarded by
the library's request validators (`ByteMemory.dfy`).

| part | files | main results |
|---|---|---|
| freeze manager | `FreezeProtocol`, `FreezeRollback`, `FreezeOrder`, `FreezeCancel`, `FreezeLife`, `FreezeWrites`, `FreezeRuns`, `FreezeManagement` | a client and any number of workers, interleaved flag load by flag load: rollback in every order of restores, cancellation, what a dead target ends, accounting, who can still write; and the class whose methods perform the protocol's steps |
| scanners | `AobScan`, `CandidateScan`, `ScanSession` | chunked scans equal the test of every address, with the exact exceptions; whole scan sessions, and what each comparison leaves of the candidates |
| JSON codec | `JsonCodec`, `JsonText`, `JsonRoundTrip`, `JsonReading` | reading undoes printing, in any layout, exactly for the values whose text survives; a text is read as a value exactly when it spells it |
| XML reader | `XmlGrammar`, `XmlText`, `XmlRoundTrip`, `XmlReading` | a text is read as a tree exactly when it is that of a document of the tree, in any spelling |
| cheat tables | `CheatTables`, `CheatEntries` | every entry is filed once, in order, on the right side; a list of entries written in any form is read back |
| policy | `RateLimit`, `PolicyGate`, `AuditTrail` | what the gate accepts, the exact rate bound, the audit stream |
| agent | `HexValues`, `AgentApprovals`, `AgentRate`, `AgentMemory`, `AgentRequests`, `AgentMessages`, `AgentEnvelope`, `AgentOutcomes`, `AgentReports`, `AgentAnswers`, `AgentServices`, `AgentTexts`, `AgentExamples`, `AgentPipeline` | exactly which applies write, how often, who changes memory and what the kill switch prevents, with the freeze manager inside the agent's state; exactly which requests are answered, which with a result and which with an error, and what either says |
| transport | `Transport`, `Pipeline` | replies come in order, each to the message it answers |
| pointer chains | `PointerChain` | three resolvers follow the pointers that stand in memory, and are compared; batch writes |

Where the source updates state in place the model is a class or a method with loops, proved equal to a
function; the theorems are then about that function, or about runs of a state machine. The agent's state
holds the state of the freeze manager, and both share one memory: a run of the agent interleaves requests
with the steps of the manager and of its workers. The clock, what the backend answers, the wording of error
messages and the conversions of the C++ runtime (`std::stod`, the printing of doubles, `std::stoll` on text
the code does not check) are parameters. Text is a sequence of bytes held in chars.

Some results differ from what one might expect of the code, or from its comments:

- Restoring freezes of overlapping ranges in the order of freezing does not bring the first value back
  (`ForwardRestoreLosesTheOriginal`); restoring in reverse order does. When every freeze has been restored, in
  any order, memory is back exactly when on each frozen byte the freeze restored last saved what the earliest
  one saved (`AnyOrderRestoresIff`), which can be read off `status` (`StatusShowsSavedByte`).
- The JSON printer escapes control characters as `\u00xx`, which the reader refuses, and prints keys without
  escaping. The round trip therefore holds exactly for `Safe` values.
- The JSON reader takes the eight escapes of a backslash with one character and no `\u`, and numbers and white space
  beyond the standard: a plus sign, leading zeros, the vertical tab and the form feed (`JsonReading.DecodeIffSpelled`).
- The XML reader takes entities without their semicolon, an ampersand in a text that begins no entity, attributes
  without space between them, and a file that ends inside a comment if the comment's last two characters are white
  space. It takes no declarations. These are all its liberties (`XmlReading.ReadIffSpelled`).
- `first_scan` does not overlap its chunks: it misses exactly the windows that straddle two chunks, which
  cannot happen when the start is a multiple of the width and the alignment is no smaller than it.
- The comment at src/parser.cpp:570-571 says that `ShowAsSigned` overrides the sign of a type. The code
  resets the sign when it looks the type up, so it never does (`SignComesFromType`).
- A limiter window whose start is 0 counts as not opened, so a clock that stands at 0 switches the limiter
  off (`ZeroClockNeverLimits`). The rate bounds assume a positive clock.
- The agent reads the preview flag from the parameters of an apply as well, and the policy lets a preview
  through without approval. An apply that carries the flag needs a pending approval under its id, but it need
  not be approved, may come after the approval has run out and under another alias, and takes no slot of the
  limiter (`WritesIff`, `OverdueApplyWrites`, `FlaggedWritesAreUnbounded`). The rate bound holds for the other
  applies, and so for all writes of a run without such applies.
- The handlers of `freeze`, `unfreeze` and `restore` (src/agent.cpp:546-596) do not ask the policy. An engaged
  kill switch stops previews and applies; it stops neither a restore, nor a new freeze, nor a worker that is
  running (`KilledRestoreText`, `KilledFreezeAndRestore`). Requests that begin neither leave memory alone
  exactly when no worker can still write anything new (`KilledTextsKeepMemoryIff`).
- An authorised apply whose `value_hex` has an even number of digits but a pair that `std::stoul` does not take
  makes `handle` throw (src/agent.cpp:510-513), after the approval has been used up. Such a request gets no
  answer, and in `serve` the exception ends the thread. `std::stoul` takes white space and signs: "-1" is 255.

## Model

| member | source | states |
|---|---|---|
| FreezeRollback.ReachableIsSafe | src/freeze.cpp:65-96 | in every reachable state ids are distinct, joined workers have exited, the client's pending call is consistent, and every snapshot byte no earlier freeze covers is the byte from before all freezes |
| FreezeRollback.OnlyOwnersWrite | src/freeze.cpp:138-149 | a byte changes in a step only if that step is a write of a worker that covers it, or the restore write of an entry that covers it |
| FreezeRollback.LastRestoreWins | src/freeze.cpp:179-211 | if a full restore of a freeze comes when every other worker on a byte has exited and nothing restores or freezes it afterwards, the byte ends as that freeze saved it |
| FreezeRollback.RollbackTheorem | src/freeze.cpp:74-87 | if that freeze is the earliest on the byte, the byte ends as it was before any freeze |
| FreezeRollback.CleanRestoreUndoesEverything | src/freeze.cpp:179-211 | for every interleaving in which each frozen byte had such a restore of its earliest freeze, the final memory is the initial memory, mapped addresses included |
| FreezeRollback.ReverseRestoreUndoesEverything | src/freeze.cpp:179-211 | restoring all freezes in the reverse of the order of freezing gives the initial memory back |
| FreezeOrder.LastRestoreDecides | src/freeze.cpp:179-211 | on a byte with such a last restore, memory is back if and only if the freeze restored last saved the same value as the earliest freeze of the byte |
| FreezeOrder.AnyOrderRestoresIff | src/freeze.cpp:179-211 | for every interleaving in which each freeze has a last, full restore, in any order, the final memory is the initial memory if and only if that holds on every frozen byte |
| FreezeOrder.StatusShowsSavedByte | src/freeze.cpp:213-242 | the number status reports as the original value determines every byte the freeze saved |
| FreezeOrder.ForwardRestoreLosesTheOriginal | src/freeze.cpp:74-87 | a run with two freezes of one byte restored in the order of freezing, after which both are restored and the byte has a wrong value |
| FreezeCancel.WorkerNeverBlocks | src/freeze.cpp:130-155 | a worker that has not exited can always take its next step |
| FreezeCancel.CancelIsBounded | src/freeze.cpp:130-155 | whatever else runs, a cancelled worker takes at most six more steps and at most one more backend write, and has left its loop when the steps are used up |
| FreezeCancel.StopIsFinal | src/freeze.cpp:158-211 | after unfreeze, restore (also a failed one) or cancel_all has returned, no later step of any run is one of the stopped worker, and an unfrozen or cancelled entry stays inactive |
| FreezeCancel.CancelAllStopsEveryone | src/freeze.cpp:273-289 | when cancel_all returns every worker is joined and the active count is zero |
| FreezeCancel.ActiveCountIsCardinality | src/freeze.cpp:291-298 | the count is the number of entries whose active flag is set |
| FreezeCancel.WorkerAccounting | src/freeze.cpp:129-155 | between iterations ok and fail add up to the iterations begun and ok counts the full writes; n iterations have slept at least n - 1 whole intervals |
| FreezeLife.DeadTargetStops | src/freeze.cpp:131-137 | from the moment a worker is told that its target is dead no run has another write of it; it takes at most two more steps, and has exited exactly when they are taken, its entry then inactive and one failure more counted |
| FreezeLife.WriteWasAsked | src/freeze.cpp:130-149 | in any run, the last step of a worker before each of its writes is one that found the target alive |
| FreezeLife.LifeBetweenWrites | src/freeze.cpp:130-149 | so between two writes of a worker lies such a step |
| FreezeLife.LifeIsFollowedByWrite | src/freeze.cpp:138-149 | after the target was found alive the worker's next step is a write |
| FreezeWrites.QuietRunsKeepMemoryIff | src/freeze.cpp:129-155 | from a state in which no freeze or restore is under way, all the runs that begin none leave memory alone if and only if every worker that can still reach its write would write what is there |
| FreezeManagement.FreezeEntry.Step | src/freeze.cpp:124-156 | one step of the worker's loop on the entry's fields is the protocol's worker step |
| FreezeManagement.FreezeManager.WorkerStep | src/freeze.cpp:138-149 | a worker's step with its memory effect is a step of the protocol and touches no other entry |
| FreezeManagement.FreezeManager.Freeze | src/freeze.cpp:39-122 | refused with the source's error and no change, or a snapshot of present memory is registered under a new id and its worker started |
| FreezeManagement.FreezeManager.AwaitExit | src/freeze.cpp:171-174 | join ends because the cancelled worker's step bound decreases, and consists of that worker's steps only |
| FreezeManagement.FreezeManager.Unfreeze | src/freeze.cpp:158-177 | performs a run of the protocol, with no other client steps than unfreeze's, after which the entry is inactive and its worker joined |
| FreezeManagement.FreezeManager.Restore | src/freeze.cpp:179-211 | performs a run of the protocol, with no other client steps than restore's; only a full write succeeds, and then memory holds the saved bytes and the entry is restored and inactive |
| FreezeManagement.FreezeManager.CancelAll | src/freeze.cpp:273-289 | performs a run of the protocol after which every worker is joined and no entry is active |
| FreezeRuns.FlagAllRun | src/freeze.cpp:280-283 | the first loop of cancel_all, one flag store at a time and in any order of the entries, is a run that stores both flags of all of them |
| FreezeRuns.AllDoneMeansNoneActive | src/freeze.cpp:273-298 | after that the active count is zero |
| FreezeManagement.FreezeManager.AllStatus | src/freeze.cpp:244-271 | lists the status of every entry once, in the order in which the map is visited |
| FreezeManagement.FreezeManager.CountActive | src/freeze.cpp:291-298 | the loop over the map counts the active entries |
| ByteMemory.BytesOfValueOfBytes | src/freeze.cpp:12-20 | bytes survive the detour through a little-endian integer |
| ByteMemory.ValueOfBytesOfValue | src/freeze.cpp:12-20 | and an integer that fits survives the detour through its bytes |
| ByteMemory.WriteBackUndoesWrite | tools/gt_trainer_cli.cpp:220-248 | writing back what was read undoes a write of the same size |
| ByteMemory.ByteMapBackend.Read | tools/gt_trainer_cli.cpp:220-237 | succeeds exactly on valid requests for mapped bytes, with those bytes |
| ByteMemory.ByteMapBackend.Write | tools/gt_trainer_cli.cpp:239-248 | a valid write changes exactly its bytes; a refused one changes nothing |
| ByteMemory.ValidateRequest | include/gtlibcpp/backend.hpp:14-52 | accepts exactly sizes from 1 to 1 MiB whose end does not wrap |
| AobScan.ParseAob | include/gtlibcpp/aob_scan.hpp:16-44 | the tokenizer loop computes the meaning of the text's words |
| AobScan.AcceptedTexts | include/gtlibcpp/aob_scan.hpp:16-44 | a text is accepted if and only if it is 1 to 4096 words, each two hex digits, ? or ??, with spaces between and optional spaces around |
| AobScan.RenderThenParse | include/gtlibcpp/aob_scan.hpp:16-44 | writing any pattern out with any spacing and parsing it gives the pattern back |
| AobScan.Scanner.ScanAob | include/gtlibcpp/aob_scan.hpp:46-86 | the result is the first max matches of the test of every address; it fails exactly when a chunk that is reached cannot be read; every read is valid and inside the range |
| AobScan.NaiveIsExact | include/gtlibcpp/aob_scan.hpp:68-81 | the test of every address lists exactly the matching addresses, strictly ascending |
| AobScan.MappedRangeIsNotBlocked | include/gtlibcpp/aob_scan.hpp:62-85 | over a readable range the scan always succeeds, so it equals the test of every address |
| CandidateScan.PowerOfTwoTest | include/gtlibcpp/candidate_scan.hpp:107-111 | n & (n - 1) is zero for exactly the powers of two |
| CandidateScan.Scanner.FirstScan | include/gtlibcpp/candidate_scan.hpp:91-174 | the result is the first max addresses, with their values, that are aligned, pass the test and have their window in one readable chunk; memory that cannot be read is no error |
| CandidateScan.ScanFindsFirst | include/gtlibcpp/candidate_scan.hpp:122-168 | the chunk and item loops find what the test of every address finds, up to the limit |
| CandidateScan.EligiblesAreExact | include/gtlibcpp/candidate_scan.hpp:135-163 | the test of every address lists exactly the eligible ones, strictly ascending |
| CandidateScan.OnlyStraddlersAreMissed | include/gtlibcpp/candidate_scan.hpp:122-133 | over a readable range an address is eligible if and only if it matches and its window does not straddle two chunks |
| CandidateScan.AlignedScanIsComplete | include/gtlibcpp/candidate_scan.hpp:135-139 | with a start that is a multiple of the width and an alignment no smaller, the scan finds every match of the range |
| CandidateScan.StraddlerIsMissed | include/gtlibcpp/candidate_scan.hpp:122-133 | with byte alignment a readable, matching two-byte value across a chunk boundary is missed |
| CandidateScan.ImageIsRead | include/gtlibcpp/candidate_scan.hpp:141-145 | the little-endian, two's complement bytes of every value of the scanned type are read as that value |
| ScanSession.NextScan | include/gtlibcpp/candidate_scan.hpp:178-225 | the loop keeps the candidates that can be read and compare as asked, with their new values; a bad list or address is refused |
| ScanSession.ScanSessionIsExact | include/gtlibcpp/candidate_scan.hpp:187-219 | over a first scan and any next scans on changing memory no candidate is refused, values are those of the latest memory, and the survivors are exactly the first candidates that passed every comparison, ascending |
| ScanSession.IncreasesAddUp | include/gtlibcpp/candidate_scan.hpp:74-75 | n rounds that ask for an increase leave only values that grew by at least n |
| ScanSession.DecreasesAddUp | include/gtlibcpp/candidate_scan.hpp:76-77 | n rounds that ask for a decrease leave only values that fell by at least n |
| ScanSession.UnchangedStays | include/gtlibcpp/candidate_scan.hpp:72-73 | rounds that ask for no change leave only values equal to the first |
| ScanSession.ThreeWays | include/gtlibcpp/candidate_scan.hpp:70-77 | on one memory increased, decreased and unchanged share the readable candidates out among them, and changed takes exactly the first two shares |
| ScanSession.TargetsAreMet | include/gtlibcpp/candidate_scan.hpp:68-83 | equal and between keep exactly the readable candidates whose latest value is the target, or within the limits |
| ScanSession.TargetSplits | include/gtlibcpp/candidate_scan.hpp:78-81 | less-than keeps values below the target, greater-than values above it, and what neither keeps reads as the target |
| ScanSession.ScanIsUnknownThenRound | include/gtlibcpp/candidate_scan.hpp:150-163 | an exact scan finds what a scan for unknown values and then equal leave on the same memory; a range scan, what between leaves |
| JsonText.JsonDecode | src/agent.cpp:97-286 | the cursor-based parser computes the grammar's function, on every text |
| JsonText.JsonEncode | src/agent.cpp:35-89 | the recursive printer's output is the concatenated tokens of the value |
| JsonRoundTrip.RoundTrip | src/agent.cpp:35-275 | decoding any layout of the encoding of a real-free value gives that value back if and only if its strings and keys are safe |
| JsonRoundTrip.EncodeDecode | src/agent.cpp:35-275 | the same for the text the printer itself produces |
| JsonRoundTrip.BadKeyIsLost | src/agent.cpp:79 | a key with a quote or a backslash is never read back |
| JsonRoundTrip.EncodeIsInjective | src/agent.cpp:35-89 | two safe values with the same text are equal |
| JsonReading.DecodeIffSpelled | src/agent.cpp:97-286 | decoding gives a value if and only if the text spells it: each character of a string as itself or as one of the eight escapes, numbers by sign and digits, white space anywhere between tokens; everything else is refused, unknown escapes, trailing content and missing separators included |
| JsonReading.NatIsMagnitude | src/agent.cpp:205-241 | the value of a number is the sum of its digits, each times its power of ten |
| XmlText.ReadXml | src/parser.cpp:23-303 | the cursor-based reader computes the grammar's function and terminates, on every text |
| XmlText.XmlReader.ReadElement | src/parser.cpp:96-175 | one element, read recursively, is what the grammar says of the unread text |
| XmlRoundTrip.ElementReadsBack | src/parser.cpp:96-175 | any printed element, whatever its quotes, escapes, white space and comments, reads back as its tree and leaves what follows it |
| XmlRoundTrip.FileReadsBack | src/parser.cpp:27-56 | the same for whole files with byte-order mark, processing instructions and trailing comments |
| XmlRoundTrip.AttributesReadBack | src/parser.cpp:198-244 | printed attributes read back as their map, the first of two with one key winning |
| XmlRoundTrip.GapIsSkipped | src/parser.cpp:72-93 | any mix of white space and comments in front of a tag is skipped |
| XmlRoundTrip.TreeHasDocument | src/parser.cpp:16-21 | every tree over legal names is the tree of some printable document |
| XmlReading.ReadIffSpelled | src/parser.cpp:23-303 | reading gives a tree if and only if the text is that of a document of the tree, so mismatched closing tags, unquoted attributes, bare ampersands in their values, declarations and trailing content are refused |
| CheatTables.ParseString | src/parser.cpp:474-711 | sanitizing, reading and the entry loop compute the table function |
| CheatTables.Partition | src/parser.cpp:503-704 | every CheatEntry lands in exactly one of the two lists, in document order, supported if and only if its type is known and it has none of the refused children |
| CheatTables.SignComesFromType | src/parser.cpp:572-587 | the sign of an entry with a known type is that of its type name; ShowAsSigned has no say |
| CheatTables.PrintedFileGivesTable | src/parser.cpp:474-503 | the table of a printed file is the filing of its CheatEntry elements, whatever the file's layout |
| CheatEntries.EntryReadsBack | src/parser.cpp:511-645 | a written entry is read back with its id, description, section, address, offsets in order, type and sign, wherever they stand: as attributes or elements, around a variable or not, with texts of lower rank to be ignored, and with the address counted from a module or not |
| CheatEntries.TableReadsBack | src/parser.cpp:474-711 | the text of any document of a list of entries, in any layout, gives the table of these entries in their order |
| CheatEntries.TableIffSpelled | src/parser.cpp:474-503 | a text has a table if and only if, with control characters replaced, it spells a tree whose root is a CheatTable |
| CheatEntries.TypeIffNamed | src/parser.cpp:398-453 | a type is found if and only if the text, trimmed and in lower case, is one of its names; no name belongs to two types |
| CheatEntries.TypeInAnyLayout | src/parser.cpp:401-408 | neither case nor white space around the name matters |
| CheatEntries.TypeNameReadsBack | src/parser.cpp:456-472 | the name reported for a type is one under which it is read, with the sign of the type |
| CheatEntries.NameTellsWidth | src/freeze.cpp:31-37 | the name of an integer type tells its sign and the bits that freezing it takes |
| CheatEntries.BytesTellWidth | src/parser.cpp:415-438 | so do the names that count bytes |
| CheatEntries.FloatNameTellsWidth | src/freeze.cpp:31-37 | so do the types behind the two floating-point names that freezing knows |
| CheatEntries.WordsDouble | src/parser.cpp:409-439 | byte, word, dword and qword double in width and have no sign; char, short, int and int64 have the same widths and a sign |
| CheatEntries.EveryNameIsFound | src/parser.cpp:398-453 | every name of a type finds the type |
| RateLimit.RateLimiter.Allow | src/policy.cpp:49-65 | the answer and the new window are those of the window rule; other aliases keep theirs |
| RateLimit.AliasesAreIndependent | src/policy.cpp:49-65 | an alias gets the answers it would get on its own |
| RateLimit.RateBound | src/policy.cpp:49-65 | with a positive clock that never runs back, no alias gets more calls through in a closed interval than the bound, which is at most (L / 60000 + 2) times the limit |
| RateLimit.BoundIsReached | src/policy.cpp:52-63 | for every limit and length some run reaches the bound, so it is exact |
| RateLimit.ZeroClockNeverLimits | src/policy.cpp:52 | at clock 0 every call passes |
| PolicyGate.FoundManifestIsFirst | src/policy.cpp:81-86 | the manifest found is the first with the alias, and none is found only when no manifest has it |
| PolicyGate.Policy.AuthorizeWithToken | src/policy.cpp:93-190 | the result, the audit event and the limiter are those of the ordered checks |
| PolicyGate.AcceptedIff | src/policy.cpp:110-178 | a call succeeds if and only if all conditions hold, stated without an order |
| PolicyGate.RefusalTellsCause | src/policy.cpp:110-178 | the code of a refusal names a condition that is not met; an engaged kill switch always gives policy_denied, and rate_limited comes exactly when nothing else is wrong |
| PolicyGate.MatchesIff | src/policy.cpp:31-44 | a manifest matches a running process with its path whose hash and architecture do not contradict it as far as both are given |
| AuditTrail.TrailIsFaithful | src/policy.cpp:93-190 | over any run, one event per call, which denies if and only if the call fails |
| AuditTrail.TrailTellsCalls | src/policy.cpp:93-108 | event k tells the request, alias, process, operation, capability and time of call k, and is a preview or an allowance only for calls of that kind |
| AuditTrail.SlotIffAllow | src/policy.cpp:175-189 | a limiter slot is taken if and only if the event allows; other aliases keep theirs |
| AuditTrail.AuditedRateIsBounded | src/policy.cpp:175-189 | in the audit stream of any run an alias is allowed at most (L / 60000 + 2) * 120 times in a closed interval of L ms |
| AuditTrail.AllowedIsBounded | include/gtlibcpp/policy.hpp:139 | by the limiter's clock the exact bound holds with limit 120 |
| AuditTrail.KillSwitchStopsAll | src/policy.cpp:67-75 | while the kill switch is engaged every call fails, every event denies and no slot is taken |
| HexValues.PairValuesAt | src/agent.cpp:510-513 | there are bytes exactly when std::stoul takes every pair of digits, and byte i is the value of pair i |
| HexValues.HexTextIsValue | src/agent.cpp:403-411 | the hex text in which read answers bytes, given to apply, stands for the same bytes |
| AgentRequests.SignedPair | src/agent.cpp:510-513 | in a pair of value_hex a space or plus sign counts as a zero, a minus sign negates the byte and what follows a digit is ignored |
| AgentRequests.MutationReadsBack | src/agent.cpp:436-454 | every mutation request can be written as parameters, and is read as it was written |
| AgentRequests.MutationDefaults | src/agent.cpp:436-454 | what is left out is neither a preview nor approved and asks to read nothing |
| AgentRequests.CapabilityIsNamed | src/agent.cpp:446-452 | only the name write asks for writing, and an unknown name counts as read |
| AgentRequests.FreezeReadsBack | src/agent.cpp:564-572 | every freeze request can be written as parameters, and is read as it was written |
| AgentApprovals.ApprovalsAreSingleUse | src/agent.cpp:456-516 | in every run and every prefix of it, applies that reach write_bytes for an id are no more than earlier successful previews of that id |
| AgentApprovals.WritesIff | src/agent.cpp:482-516 | an apply writes if and only if an approval of its id is pending, its value_hex gives bytes, its request is sound, and it either carries the preview flag or is approved, fits its approval and finds a slot |
| AgentApprovals.WriteIffPreviewed | src/agent.cpp:456-516 | over whole runs, an apply writes if and only if it answers an earlier successful preview of its id, not replaced and not used since, and is permitted: bytes, a sound request, and either the flag or approval, alias, at most 300000 ms and a slot |
| AgentApprovals.KilledRunAddsNothing | src/agent.cpp:671-681 | in a run that never releases the engaged kill switch no preview succeeds, no apply writes and no approval is added |
| AgentRate.GateFollowsOps | src/agent.cpp:456-516 | over any run of requests the agent moves its policy only by the calls of its previews, applies and kill-switch requests, in order |
| AgentRate.AgentWritesAreBounded | src/agent.cpp:482-516 | in any run with a running clock and any interval, the writes of applies without the preview flag for one alias obey the exact rate bound with limit 120 |
| AgentRate.UnflaggedWritesAreBounded | src/agent.cpp:436-447 | in a run none of whose applies carries the flag, all writes obey the bound |
| AgentRate.FlaggedWritesAreUnbounded | src/policy.cpp:144-157 | with a request that carries the flag, a run with a running clock writes any number of times above the bound at one instant |
| AgentRate.FlaggedApplyWrites | src/policy.cpp:144-157 | an apply that carries the flag writes after its preview, approved or not, at any later time, whatever the limiter has counted |
| AgentExamples.OverdueApplyWrites | src/agent.cpp:436-516 | a concrete such run: not approved, any time after the approval has run out, and the byte is written |
| AgentMemory.RunKeepsManager | src/agent.cpp:546-596 | whatever requests come, the manager's bookkeeping stays consistent and its entries only evolve |
| AgentMemory.ChangeHasCause | src/agent.cpp:482-583 | over any run of requests, manager steps and worker steps, a byte that is not what it was was changed by an apply that writes it, by a worker whose freeze covers it or by a restore of such a freeze |
| AgentMemory.OutsideFreezesOnlyAppliesWrite | src/agent.cpp:515-516 | a byte that no freeze covers in the end changes only by an apply |
| AgentMemory.KilledRunsKeepMemoryIff | src/agent.cpp:564-596 | with the kill switch engaged and no freeze or restore under way, all the runs that never release it and begin neither leave memory alone if and only if no worker can still write anything new |
| AgentMemory.KilledRestoreWrites | src/agent.cpp:546-562 | with the kill switch engaged a restore of a stopped freeze puts the saved bytes back, so it leaves memory alone if and only if they are there |
| AgentMemory.KilledFreezeWrites | src/agent.cpp:564-583 | with the kill switch engaged a freeze that is accepted and has a new value can change memory |
| AgentExamples.KilledFreezeAndRestore | src/agent.cpp:546-583 | a concrete run under an engaged kill switch: a freeze writes 7 over 1, and its restore 1 over 7 |
| AgentServices.AgentService.OnPreview | src/agent.cpp:456-480 | pending approvals, policy and reply after a preview |
| AgentServices.AgentService.OnApply | src/agent.cpp:482-530 | the approval is consumed before the policy is asked; pending approvals, policy, memory and reply after an apply, also when the write fails or is short, and no reply when the conversion throws |
| AgentServices.AgentService.OnKillSwitch | src/agent.cpp:671-681 | the switch and the reply after engaging or releasing it |
| AgentServices.AgentService.OnRestore | src/agent.cpp:546-562 | the manager's state, memory included, after the run of a restore, and the reply; the policy is not asked |
| AgentServices.AgentService.Handle | src/agent.cpp:683-747 | the reply text is the printed answer, or none when the handler throws, and the state changes as the named method says, the manager's by the run it performed |
| AgentEnvelope.ResultIsHandled | src/agent.cpp:389-681 | every handler returns an error envelope or an object that is no envelope, or throws, which it does exactly on an authorised apply with a pair of digits std::stoul does not take |
| AgentEnvelope.EveryRequestIsAnswered | src/agent.cpp:683-747 | a request text gets no answer if and only if it is such an apply; every other one gets an object with exactly jsonrpc, id and one of result and error, under the request's string id |
| AgentEnvelope.ReplyDecodesToAnswer | src/agent.cpp:730-746 | decoding the reply gives that object if and only if its strings are safe |
| AgentAnswers.ResultIffWorks | src/agent.cpp:683-747 | every text: the answer has a result and no error if and only if the text is a request object that names one of the twelve methods and the operation works; it has an error and no result if and only if not, unless the handler throws |
| AgentAnswers.BadRequestsFail | src/agent.cpp:683-730 | the codes of the errors for a text that does not parse, a request that is no object and an unknown method |
| AgentAnswers.InspectAnswers | src/agent.cpp:349-391 | inspect: the members of the target and the capabilities |
| AgentAnswers.ReadAnswers | src/agent.cpp:393-411 | read: address, size and the hex text that stands for the bytes in memory, if the target lives and the window is valid and mapped; otherwise the error that says why not |
| AgentAnswers.VerifyAnswers | src/agent.cpp:532-544 | verify: the same without the question whether the target lives |
| AgentAnswers.ResolveAnswers | src/agent.cpp:413-434 | resolve: a result if and only if there are offsets and pointers stand in memory where base and offsets lead, and then the address of the last of them |
| AgentAnswers.PreviewAnswers | src/agent.cpp:456-480 | preview: the token, times and target of the approval that is pending from then on, five minutes long; or the policy's error |
| AgentAnswers.ApplyAnswers | src/agent.cpp:482-530 | apply: a result if and only if an approval is pending, the policy accepts it and the bytes are written in full, and then they are in memory; otherwise the error of the first of these that fails |
| AgentAnswers.SwitchAnswers | src/agent.cpp:671-681 | kill_switch: the state of the switch afterwards, engaged unless the request says engage false |
| AgentAnswers.FreezeAnswers | src/agent.cpp:564-583 | freeze: active under the id, unless address, size, id or memory do not allow it, with the error that says which |
| AgentReports.FreezeIsDecided | src/freeze.cpp:39-87 | and what an accepted freeze registers: the bytes that stand there, the value, and the interval |
| AgentAnswers.UnfreezeAnswers | src/agent.cpp:585-596 | unfreeze: done if and only if the id is registered |
| AgentAnswers.RestoreAnswers | src/agent.cpp:546-562 | restore: done if and only if the id is registered and the saved bytes are written in full |
| AgentAnswers.StatusAnswers | src/agent.cpp:598-629 | status: the freeze with the id, or each freeze exactly once, with its activity and counters |
| AgentAnswers.ParseAnswers | src/agent.cpp:631-669 | parse: every entry of the table in its place with its fields, supported or not, if the text has a table |
| AgentOutcomes.OffsetsOfParts | src/agent.cpp:415-423 | the offsets are those of the array's integers, part by part |
| AgentOutcomes.SignedTellsNumber | src/agent.cpp:409-433 | a reported address determines the address, and a small number is reported as itself |
| AgentOutcomes.CodesTellErrors | include/gtlibcpp/result.hpp:34-65 | no two errors have the same code |
| AgentTexts.CallsAreRun | src/agent.cpp:683-747 | any sequence of request texts is a run of the agent's state machine, each step of which is one that a text asks for, as an apply or a restore, or one of a worker |
| AgentTexts.KilledTextsKeepMemoryIff | src/agent.cpp:546-583 | with the kill switch engaged, all the sequences of texts that ask for no freeze and no restore and never release it leave memory alone if and only if no worker can still write anything new |
| AgentTexts.KilledRestoreText | src/agent.cpp:546-562 | with the kill switch engaged, the text of a restore of a stopped freeze puts the saved bytes back |
| AgentPipeline.EveryReplyAnswersItsMessage | src/agent.cpp:749-763 | in every interleaving reply k the client gets is an answer under the id of message k it sent |
| Transport.InProcTransport.Send | src/inproc_transport.cpp:13-32 | appends to the peer's queue unless detached or closed |
| Transport.InProcTransport.Receive | src/inproc_transport.cpp:34-57 | takes the oldest message, also from a closed pair; otherwise says closed or timed out |
| Pipeline.RepliesAnswerSent | src/agent.cpp:749-763 | in every interleaving of client, serve loop, close and stop, received and queued replies are the service's answers, in order, to a prefix of the messages sent |
| Pipeline.QueueIsServed | src/agent.cpp:752-762 | the serve loop handles every queued message in order, also after a close, when none of them makes the handler throw |
| Pipeline.ThrowEndsService | src/agent.cpp:752-762 | otherwise the thread ends in the handler of the first one that does, and nothing is answered any more |
| Pipeline.QueueIsDelivered | src/inproc_transport.cpp:42-56 | what is queued for the client is delivered in order, also after a close |
| Pipeline.NothingIsLost | src/agent.cpp:749-763 | from every reachable state, wherever the loop stands, unless something was closed or stopped or a message makes the handler throw, every message sent can still be answered and every answer received |
| PointerChain.MemorySession.ResolvePointerChain | include/gtlibcpp/memory_session.hpp:351-379 | the loop follows the walk that adds, reads and refuses null |
| PointerChain.MemorySession.ResolveInTool | tools/gt_trainer_cli.cpp:289-322 | the loop follows the walk that reads and adds, in the width the source chooses |
| PointerChain.LegacyLibrary.ResolveAddressGeneric | libs/gtlibc/src/GTLibc.cpp:1110-1137 | the loop follows the 32-bit walk in which a failed read gives 0 |
| PointerChain.WrittenWordIsRead | include/gtlibcpp/memory_session.hpp:91-104 | a word that fits its width, written at a valid address, is the word read there |
| PointerChain.ReadIffStored | include/gtlibcpp/memory_session.hpp:91-104 | a word is read if and only if all bytes of its image stand at the address |
| PointerChain.SessionFollowsPointers | include/gtlibcpp/memory_session.hpp:351-379 | the session's walk gives an address if and only if all eight bytes of non-null pointers stand where base, offsets and the pointers before them lead, and the address is the last of them |
| PointerChain.ToolFollowsPointers | tools/gt_trainer_cli.cpp:289-322 | the tool's walk, in either width, gives an address if and only if pointers stand where it leads, and the address is the last pointer plus the last offset |
| PointerChain.LegacyFollowsPointers | libs/gtlibc/src/GTLibc.cpp:1110-1137 | the legacy walk ends at the last of the 32-bit pointers it is led to, plus the last offset |
| PointerChain.ResolversAgree | include/gtlibcpp/memory_session.hpp:352-379 | if the session resolves [0] and all offsets but the last, adding the last gives the tool's result; when the tool succeeds the session does if and only if no link is null |
| PointerChain.LegacyAgreesWithTool | libs/gtlibc/src/GTLibc.cpp:1120-1136 | where no 32-bit sum wraps and no read fails, the legacy resolver and the tool's 32-bit walk agree |
| PointerChain.MemorySession.WriteOffsets | include/gtlibcpp/memory_session.hpp:195-215 | the addresses done are those of a prefix of the offsets, memory is what writing them gives, and it stops exactly at the first refused write |
| PointerChain.BatchWritesStayInside | include/gtlibcpp/memory_session.hpp:204-214 | batch writes change nothing outside their windows, and the last one reads back |

## Left out

- Windows, macOS and named-pipe backends, process and window discovery, SHA-256: foreign calls. The byte map stands for the target.
- Error messages, the logger, exception-to-Result wrapping and allocation failure: errors are their codes.
- Floating point scans and the value of JSON reals: rounding is not modelled; `std::stod` and the printing of doubles are parameters.
- Racing client calls on one FreezeManager: the client is serial, as the agent is. The snapshot read of a freeze and each backend write of at most 8 bytes are one step; a worker's write may also be partial or fail.
- FreezeManagement.FreezeManager.CancelAll: the second loop over the entries is a recursive method, and other workers do not move while one is joined; the protocol itself has no such restriction.
- FreezeManagement.FreezeManager.Register: emplacing the entry and starting its thread are one method call; in the protocol they are two steps other workers may come between.
- FreezeManagement.FreezeManager.AllStatus: the last error text of an entry is not modelled.
- AgentServices.AgentService.Handle: workers other than one that is being stopped do not move during the call; in the state machine, and so in AgentTexts.CallsAreRun, they move at any time.
- AgentTexts.CallsAreRun: a call of the manager that the moves leave unfinished is allowed too, so the runs are a superset of what the agent does; AgentServices.AgentService.Handle returns only finished ones.
- AgentEnvelope.ReplyDecodesToAnswer: the handlers' lists of diagnostics, reasons and hotkeys come from outside, so nothing is said about their contents.
- CheatTables.ParseString: title, version, diagnostics, hotkeys and default values are not kept; they do not affect how an entry is filed. The agent's parse reply has the hotkeys of an entry as a parameter.
- Transport.InProcTransport.Receive: the wait of at most 50 ms is not modelled; the method starts when the wait is over.
- Pipeline.NothingIsLost: it shows that delivery is always possible, not that the scheduler performs it.
- PointerChain.MemorySession.WriteOffsets: the list of attempted addresses, which the source starts with the raw offsets, is not returned.
- read_offsets, read_string, write_string, compare_write_verify, refine_candidates and the typed wrappers: easy members over the same reads and writes.
- The rest of the command line tool, the demos, the examples, gtctl and the legacy library beyond its resolver: user interface and Win32.
