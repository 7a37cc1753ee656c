# A verified model of nine FoundationDB pieces

This project models nine small, sequential parts of FoundationDB in Dafny and proves what each promises. It covers:

- **Machine teams** (`MachineTeam`, fdbserver/TCMachineTeamInfo.cpp). Data distribution uses these to tell replica-placement teams apart: a team keeps its machines' ids, sorted.
- **Reply comparison for testing storage servers** (`StorageServerInterface`, fdbclient/StorageServerInterface.cpp). A testing storage server (TSS) answers a copy of each read sent to its storage server (SS). `TSS_doCompare` decides whether the two replies agree, and `traceChecksumValue` shortens long values in mismatch reports.
- **TSS metrics** (`TssComparison`, fdbrpc/TSSComparison.h): the client's error counters, per-error-code counts and latency samples.
- **The global configuration cache** (`GlobalConfig`, fdbclient/GlobalConfig.actor.cpp). It is a client-side ordered map from keys to decoded values, with per-key callbacks. It is kept current by applying the versioned mutation history the cluster broadcasts.
- **Pager pages** (`Pager`, fdbserver/IPager.h). `ArenaPage` is a byte buffer whose logical size ends in a 4-byte checksum slot. It supports clones, sub-page views and the concatenation of equal-sized pages.
- **Trace field values** (`Trace`, flow/TraceValue.h): string, boolean, counter and numeric fields, truncation of long strings, and size accounting.
- **Restore keys** (`RestoreKeys`, fdbserver/RestoreWorkerInterface.actor.cpp). These are the system keys of restore workers and appliers. Applier keys are built so that byte order follows (batch index, version) order.
- **fdbcli helpers** (`CliUtil`, fdbcli/Util.cpp): token matching (`tokencmp`) and the choice `printUsage` makes.
- **The API version rewriter** (`ApiVersioner`, contrib/apiversioner.py). It finds the places that set an FDB API version and splices a new version over the old one, optionally asking for confirmation. `VersionScan` models what `finditer` reports for the pattern around the version number, and the scan its comment asks for.

The shared modules `Bytes` (byte order of keys, fixed-width integer codecs), `Text` (decimal and hexadecimal rendering, ASCII lower case) and `Wrappers` (`Option`) support them.

Several things are given to the model as parameters:

- CRC-32C;
- `Tuple::unpack`;
- the random unique id of a team;
- the `toString` bodies of `TraceBool` and `TraceCounter`, which are not in the header;
- `sizeof(TraceValue)`;
- what the regular-expression engine finds, given as lists of match spans;
- what the user types at a prompt.

Objects whose fields the source updates in place are classes: `TCMachineTeamInfo`, `TSSMetrics`, `GlobalConfig`, `ArenaPage` (over a shared `array`, so a sub-page aliases its parent), `TraceValue`, and the phrase iterator of the rewriter. Loops in the source are `while`/`for` loops, each proved against a specification function.

## Model

| member | source | states |
|---|---|---|
| MachineTeam.TCMachineTeamInfo.constructor | fdbserver/TCMachineTeamInfo.cpp:25-32 | The team keeps its machines and the given id. It holds one machine id per machine (duplicates kept), sorted ascending by byte order, and they are a permutation of the machines' ids. |
| MachineTeam.Sort | fdbserver/TCMachineTeamInfo.cpp:31 | The result is sorted, has the same length, and holds the same ids with the same multiplicities. |
| MachineTeam.SortedUnique | fdbserver/TCMachineTeamInfo.cpp:31 | Two sorted id lists holding the same multiset are equal, so the sorted ids depend only on which machines are in the team. |
| MachineTeam.IdsOfPermutation | fdbserver/TCMachineTeamInfo.cpp:27-30 | Reordering the machine list permutes the extracted id list. |
| MachineTeam.TCMachineTeamInfo.Size | fdbserver/TCMachineTeamInfo.cpp:34-37 | Under the equal-length condition the source asserts, the size is both the machine count and the id count. |
| MachineTeam.TCMachineTeamInfo.MachineIDsStr | fdbserver/TCMachineTeamInfo.cpp:39-49 | The result is "[unset]" exactly when there are no ids; otherwise it is each sorted id followed by one space. |
| MachineTeam.SpaceTerminatedShape | fdbserver/TCMachineTeamInfo.cpp:44-48 | The rendering's length is the sum of each id's length plus one, and a non-empty rendering ends in a space, so it never looks like "[unset]". |
| MachineTeam.TCMachineTeamInfo.Equals | fdbserver/TCMachineTeamInfo.cpp:51-53 | operator== compares the sorted id lists; what that means for two teams is stated by EqualsIffSameMachines and PermutedTeamsEqual. |
| MachineTeam.EqualsIffSameMachines | fdbserver/TCMachineTeamInfo.cpp:51-53 | Two teams are equal exactly when their machines carry the same multiset of ids, whatever their order and their random ids. |
| MachineTeam.MachineIDsStrOrderIndependent | fdbserver/TCMachineTeamInfo.cpp:39-49 | Teams over the same multiset of ids render the same string. |
| MachineTeam.PermutedTeamsEqual | fdbserver/TCMachineTeamInfo.cpp:25-53 | Teams built over permutations of one machine list are equal, render alike and have the same size. |
| StorageServerInterface.TraceChecksumValue | fdbclient/StorageServerInterface.cpp:29-31 | Values of at most 12 bytes are shown as they are. Longer ones are shown as "(" + decimal length + ")" followed by the CRC-32C in eight hex digits. |
| StorageServerInterface.TraceChecksumValueNeverLonger | fdbclient/StorageServerInterface.cpp:29-31 | The rendering is never longer than the value. A long value's rendering begins with "(", digits and ")", and the digits parse back to the value's length. |
| StorageServerInterface.TestTraceChecksum13 | fdbclient/StorageServerInterface.cpp:378-383 | A 13-byte value renders with the prefix "(13)". |
| StorageServerInterface.CompareGetValue | fdbclient/StorageServerInterface.cpp:33-51 | GetValue replies match exactly when both values are absent, or both are present and equal. |
| StorageServerInterface.CompareGetKeyValues | fdbclient/StorageServerInterface.cpp:111-147 | GetKeyValues replies match exactly when the `more` flags and the returned pairs are equal. |
| StorageServerInterface.CompareGetKey | fdbclient/StorageServerInterface.cpp:53-109 | The GetKey comparison; its verdict is stated case by case by GetKeySameSelector, GetKeySameKey and GetKeyDifferentKeys, and its reflexivity, symmetry and independence from the request by GetKeyReflexive, GetKeySymmetric and GetKeyIgnoresContext. |
| StorageServerInterface.GetKeySameSelector | fdbclient/StorageServerInterface.cpp:66-71 | With equal (orEqual, offset), a GetKey reply pair mismatches exactly when both selectors are exact and the keys differ. |
| StorageServerInterface.GetKeySameKey | fdbclient/StorageServerInterface.cpp:74-84 | With the same key and different selectors, the replies match exactly when one side is (true, 0) and the other is (false, 1). |
| StorageServerInterface.GetKeyDifferentKeys | fdbclient/StorageServerInterface.cpp:85-94 | With different keys and different selectors, the replies match exactly when "tss key larger" differs from "tss offset larger". Equal offsets are ordered by the tss orEqual flag. |
| StorageServerInterface.GetKeyReflexive | fdbclient/StorageServerInterface.cpp:65-94 | Every GetKey reply matches itself. |
| StorageServerInterface.GetKeySymmetric | fdbclient/StorageServerInterface.cpp:65-94 | Swapping the SS and TSS replies never changes the verdict. |
| StorageServerInterface.GetKeyIgnoresContext | fdbclient/StorageServerInterface.cpp:53-109 | The GetKey verdict depends on the two replies only, not on the request, the severity or the TSS id. |
| StorageServerInterface.TssDoCompare | fdbclient/StorageServerInterface.cpp:149-194 | A GetValue exchange matches exactly when the values are equal, a GetKeyValues exchange exactly when the `more` flags and the data are equal, and a GetKey exchange exactly when CompareGetKey accepts it; the watch and metrics request kinds always match. |
| StorageServerInterface.TestGetValueCases | fdbclient/StorageServerInterface.cpp:250-258 | The in-file test's GetValue verdicts hold. |
| StorageServerInterface.TestGetKeyValuesCases | fdbclient/StorageServerInterface.cpp:269-283 | The in-file test's GetKeyValues verdicts hold. |
| StorageServerInterface.TestGetKeyRelativeOffsets | fdbclient/StorageServerInterface.cpp:297-316 | Identical GetKey replies, and pairs whose selectors are consistent with their key order, all match in both directions. |
| StorageServerInterface.TestGetKeyEdgeCases | fdbclient/StorageServerInterface.cpp:319-375 | The in-file test's verdicts hold for same offsets with different keys, mismatched offsets, next-key selectors and same keys. |
| TssComparison.TSSMetrics.RecordLatency | fdbclient/StorageServerInterface.cpp:198-229 | Only GetValue, GetKey and GetKeyValues latencies are sampled, each into its own SS/TSS pair; nothing else changes. |
| TssComparison.Increment | fdbrpc/TSSComparison.h:54 | The code's count goes up by one, counting an absent code from 0; every other code keeps its count. |
| TssComparison.SumCountsIncrement | fdbrpc/TSSComparison.h:52-60 | Counting one more error with any code raises the total of the per-code counts by exactly one. |
| TssComparison.TSSMetrics.constructor | fdbrpc/TSSComparison.h:78-81 | All counters start at zero and all samples and per-code maps start empty. |
| TssComparison.TSSMetrics.SsError | fdbrpc/TSSComparison.h:52-55 | ssErrors and that code's SS count go up by one. No TSS field, other code or sample changes, and the invariant holds: the errors since the last clear equal the sum of the per-code counts. |
| TssComparison.TSSMetrics.TssError | fdbrpc/TSSComparison.h:57-60 | The mirror image of SsError on the TSS side, keeping the same invariant. |
| TssComparison.TSSMetrics.Clear | fdbrpc/TSSComparison.h:65-76 | All six samples and both per-code maps become empty. The five counters keep their values, and the invariant is re-based at the current counts. |
| GlobalConfig.Decode | fdbclient/GlobalConfig.actor.cpp:84-107 | A value that does not unpack, or whose first element has an unsupported type, decodes to nothing (the thrown error is caught). |
| GlobalConfig.SingleKeyRange | fdbclient/GlobalConfig.actor.cpp:110-112 | The range [key, keyAfter(key)) holds exactly one key, key itself. |
| GlobalConfig.InRange | fdbclient/GlobalConfig.actor.cpp:57-65 | The range lookup returns a sorted map that holds exactly the in-range keys, each with its stored value. |
| GlobalConfig.InsertSpecMeaning | fdbclient/GlobalConfig.actor.cpp:79-108 | After insert the key holds what the value decodes to, and is absent when decoding fails. No other key changes. The key's callback runs once with the new value, and only on success. |
| GlobalConfig.EraseSpecMeaning | fdbclient/GlobalConfig.actor.cpp:114-126 | After erase(range) exactly the in-range keys are gone and every other key keeps its value. |
| GlobalConfig.ErasedEventsAreErasures | fdbclient/GlobalConfig.actor.cpp:117-120 | Every callback run by erase(range) gets nullopt, and belongs to an erased key that had one registered. |
| GlobalConfig.EraseWalk | fdbclient/GlobalConfig.actor.cpp:115-125 | The erase-as-you-go iterator loop keeps exactly the out-of-range entries in order, and makes the callback invocations of the erased keys in key order. |
| GlobalConfig.UserKeysContains | fdbclient/GlobalConfig.actor.cpp:177 | The range refresh clears holds exactly the keys that do not start with byte 0xff. |
| GlobalConfig.ApplyMutation | fdbclient/GlobalConfig.actor.cpp:223-230 | A set or clear-range mutation is applied and keeps the map sorted; any other type stops the updater. |
| GlobalConfig.ApplyMutationsOk | fdbclient/GlobalConfig.actor.cpp:223-231 | A version's mutations are all applied exactly when none has an unsupported type. |
| GlobalConfig.MutationsStopped | fdbclient/GlobalConfig.actor.cpp:223-231 | After an unsupported mutation, the later ones are not applied. |
| GlobalConfig.ApplyVersionsLastUpdate | fdbclient/GlobalConfig.actor.cpp:218-235 | lastUpdate never decreases. When every mutation was supported, it ends at the largest version in the history, or where it was. |
| GlobalConfig.StoppedStaysStopped | fdbclient/GlobalConfig.actor.cpp:218-235 | Once the updater has stopped, later history entries change nothing. |
| GlobalConfig.AppliedEntriesSkipped | fdbclient/GlobalConfig.actor.cpp:219-221 | Entries at or below lastUpdate are skipped, so a history of them changes nothing. |
| GlobalConfig.ReplayIsIdempotent | fdbclient/GlobalConfig.actor.cpp:218-235 | Delivering a history again after it was applied in full changes nothing. |
| GlobalConfig.GlobalConfig.constructor | fdbclient/GlobalConfig.actor.cpp:37 | A new GlobalConfig holds no data, no callbacks and no fired events, and lastUpdate starts at 0. |
| GlobalConfig.GlobalConfig.Get | fdbclient/GlobalConfig.actor.cpp:49-55 | get(name) returns a value exactly when some entry has that key, and then it is that entry's value. A missing key gives the null reference. |
| GlobalConfig.GlobalConfig.GetRange | fdbclient/GlobalConfig.actor.cpp:57-65 | get(range) returns exactly the entries whose key lies in [begin, end), with their values, in key order. |
| GlobalConfig.GlobalConfig.Trigger | fdbclient/GlobalConfig.actor.cpp:75-77 | A key's first registered callback is kept; a later registration for the same key is ignored. Nothing else changes. |
| GlobalConfig.GlobalConfig.Insert | fdbclient/GlobalConfig.actor.cpp:79-108 | The cache becomes the insert specification of its old state: erase first, then store and call back on a successful decode. The callbacks and lastUpdate stay the same. |
| GlobalConfig.GlobalConfig.EraseRange | fdbclient/GlobalConfig.actor.cpp:114-126 | The cache becomes the erase specification of its old state, and the map stays sorted. |
| GlobalConfig.GlobalConfig.EraseKey | fdbclient/GlobalConfig.actor.cpp:110-112 | Exactly the given key disappears, and every other key keeps its value. |
| GlobalConfig.GlobalConfig.Refresh | fdbclient/GlobalConfig.actor.cpp:176-186 | The user key space is cleared, then every row read is inserted in order. |
| GlobalConfig.GlobalConfig.ApplyOne | fdbclient/GlobalConfig.actor.cpp:223-230 | One mutation changes the cache as ApplyMutation says, and reports whether its type was supported. |
| GlobalConfig.GlobalConfig.ApplyHistory | fdbclient/GlobalConfig.actor.cpp:201-235 | An empty history is ignored. If lastUpdate < history[0].version, the cache is refreshed and lastUpdate is set to the last version of the history read afterwards. Otherwise the entries are applied in order from lastUpdate on, and the updater stops at an unsupported mutation. |
| Pager.ArenaPage.constructor | fdbserver/IPager.h:44-53 | The page gets a fresh buffer of bufferSize bytes, or none when bufferSize is not positive, and records both sizes. |
| Pager.ArenaPage.Size | fdbserver/IPager.h:67-68 | The usable size plus the 4-byte checksum is the logical size. |
| Pager.ArenaPage.AsStringRef | fdbserver/IPager.h:70 | Exactly the first size() bytes of the page. |
| Pager.ArenaPage.GetChecksum | fdbserver/IPager.h:105 | The 4 bytes after the usable ones, read as a little-endian uint32. |
| Pager.ArenaPage.CalculateChecksum | fdbserver/IPager.h:107 | The CRC of the usable bytes, seeded with the page id. |
| Pager.ArenaPage.VerifyChecksum | fdbserver/IPager.h:111 | True exactly when the stored checksum equals the computed one. |
| Pager.ArenaPage.UpdateChecksum | fdbserver/IPager.h:109 | Only the 4 checksum bytes are written, the usable bytes stay as they were, and afterwards the page verifies. |
| Pager.WithChecksum | fdbserver/IPager.h:109 | Updating the checksum keeps the page's length and usable bytes, and the result verifies. |
| Pager.VerifiesIffUpToDate | fdbserver/IPager.h:107-111 | A page verifies exactly when updating its checksum would change nothing. |
| Pager.VerifiesAfterUpdate | fdbserver/IPager.h:105-111 | After an update, a page whose usable bytes were edited verifies only if the CRC collides. |
| Pager.Copy | fdbserver/IPager.h:75 | memcpy between distinct buffers: the target range holds the source bytes and every other byte is unchanged. |
| Pager.ArenaPage.CloneContents | fdbserver/IPager.h:73-77 | A page with the same sizes over a fresh buffer, whose logical bytes equal the original's. |
| Pager.ArenaPage.SubPage | fdbserver/IPager.h:80-85 | A page of logical size len over the parent's own memory; its byte i is the parent's byte offset + i. |
| Pager.ConcatLength | fdbserver/IPager.h:91 | n chunks of u bytes concatenate to n * u bytes. |
| Pager.ConcatSlice | fdbserver/IPager.h:95-100 | Chunk k of equal-sized chunks occupies bytes [k * u, (k + 1) * u) of the concatenation. |
| Pager.WriteChunks | fdbserver/IPager.h:95-100 | The write-pointer loop leaves the pages' first u bytes one after another at the front of the buffer. |
| Pager.ConcatPages | fdbserver/IPager.h:89-103 | For a non-empty list of pages of one usable size: the superpage's size is n times that size and its buffer is n times the first buffer. Its usable bytes are the pages' usable bytes in order. |
| Trace.Truncated | flow/TraceValue.h:53-57 | A string within the limit, or under a negative limit, is unchanged. Otherwise it becomes its first maxFieldLength characters plus "...", of length maxFieldLength + 3. |
| Trace.TruncatedIdempotent | flow/TraceValue.h:53-57 | Truncating twice with the same limit is truncating once. |
| Trace.TruncatedBounds | flow/TraceValue.h:53-57 | A truncated string keeps the original's first characters and is at most limit + 3 long. A string one or two characters over the limit gets longer. |
| Trace.HeapSize | flow/TraceValue.h:35-90 | The string length for string and numeric fields, and 0 for boolean and counter fields. |
| Trace.TruncateAlternative | flow/TraceValue.h:36-91 | Only a string field is truncated; boolean, numeric and counter fields are left as they are, and the alternative held never changes. |
| Trace.TruncateAlternativeIdempotent | flow/TraceValue.h:153-155 | Truncating a field twice with the same limit is truncating it once. |
| Trace.AlternativeToString | flow/TraceValue.h:49-89 | String and numeric fields render as their stored text; boolean and counter fields use their own renderers. |
| Trace.TraceValue.constructor | flow/TraceValue.h:121 | The default value is a string field holding the given text, "" by default. |
| Trace.TraceValue.Create | flow/TraceValue.h:123-126 | The value holds exactly the given alternative. |
| Trace.TraceValue.ToString | flow/TraceValue.h:140-142 | toString dispatches to the held alternative. |
| Trace.TraceValue.Size | flow/TraceValue.h:149-151 | The size is sizeof(TraceValue) plus the held alternative's heap size, and never less than the constant. |
| Trace.TraceValue.Truncate | flow/TraceValue.h:153-155 | The held alternative is truncated in place, as TruncateAlternative says. |
| RestoreKeys.SlashRangeContains | fdbserver/RestoreWorkerInterface.actor.cpp:25-27 | Every key that extends stem + "/" lies in [stem + "/", stem + "0"), since '/' < '0'. |
| RestoreKeys.EncodeUid | fdbserver/RestoreWorkerInterface.actor.cpp:49-55 | A UID is written as 16 bytes; UidRoundTrip states that they read back as the same UID. |
| RestoreKeys.UidRoundTrip | fdbserver/RestoreWorkerInterface.actor.cpp:33-47 | Reading back the 16 bytes written for a UID gives the UID. |
| RestoreKeys.BigEndian64 | fdbserver/RestoreWorkerInterface.actor.cpp:36-46 | bigEndian64 swaps the bytes of an int64; BigEndian64Involution states it is its own inverse and WrittenBigEndian that a raw write of it gives the big-endian bytes. |
| RestoreKeys.BigEndian64Involution | fdbserver/RestoreWorkerInterface.actor.cpp:36-46 | bigEndian64 applied twice gives back any int64, so one function can both encode and decode. |
| RestoreKeys.WrittenBigEndian | fdbserver/RestoreWorkerInterface.actor.cpp:30-36 | Writing bigEndian64(x) raw produces x's 8 big-endian bytes. |
| RestoreKeys.RestoreApplierKeyFor | fdbserver/RestoreWorkerInterface.actor.cpp:33-38 | The applier key is the applier range's begin, then the 16 UID bytes, then the 8-byte big-endian batch index and version. |
| RestoreKeys.DecodeRestoreApplierKey | fdbserver/RestoreWorkerInterface.actor.cpp:40-47 | Decoding reads from byte 0 and succeeds exactly when the key holds at least 32 bytes. |
| RestoreKeys.ApplierKeyRoundTrip | fdbserver/RestoreWorkerInterface.actor.cpp:33-47 | Decoding an applier key with its prefix removed returns the applier id, batch index and version it was built from. |
| RestoreKeys.DecodeReadsPrefix | fdbserver/RestoreWorkerInterface.actor.cpp:40-47 | Decoding a whole applier key reads the prefix's first 16 bytes as the UID, because the prefix is not skipped. |
| RestoreKeys.ApplierKeyInRange | fdbserver/RestoreWorkerInterface.actor.cpp:27-38 | Every applier key lies in restoreApplierKeys. |
| RestoreKeys.ApplierKeyOrder | fdbserver/RestoreWorkerInterface.actor.cpp:30-36 | For one applier and non-negative fields, keys sort exactly as the pairs (batchIndex, version) do. |
| RestoreKeys.NegativeBatchSortsLast | fdbserver/RestoreWorkerInterface.actor.cpp:30-36 | A negative batch index sorts after every non-negative one, so the order needs non-negative fields. |
| RestoreKeys.RestoreWorkerKeyFor | fdbserver/RestoreWorkerInterface.actor.cpp:50-55 | The worker key is the worker range's begin followed by the 16 bytes of the worker's UID, and those 16 bytes decode back to that UID. |
| RestoreKeys.WorkerKeyInjective | fdbserver/RestoreWorkerInterface.actor.cpp:50-55 | Distinct workers get distinct keys. |
| RestoreKeys.WorkerKeyInRange | fdbserver/RestoreWorkerInterface.actor.cpp:50-55 | Every worker key lies in restoreWorkersKeys. |
| CliUtil.Strlen | fdbcli/Util.cpp:28 | The position of the first NUL byte: every byte before it is non-zero. |
| CliUtil.MemEqual | fdbcli/Util.cpp:31 | memcmp of n bytes reports equality exactly when the first n bytes agree. |
| CliUtil.TokenCmp | fdbcli/Util.cpp:27-32 | tokencmp; TokenCmpIffEqual states it holds exactly when the token is the command string byte for byte, TokenCmpLength and TokenCmpCaseSensitive its length and case behaviour. |
| CliUtil.TokenCmpIffEqual | fdbcli/Util.cpp:27-32 | A token matches a command exactly when it is the command's string, byte for byte. |
| CliUtil.TokenCmpLength | fdbcli/Util.cpp:28-29 | A token of another length never matches, and the empty token matches only the empty command. |
| CliUtil.TokenCmpCaseSensitive | fdbcli/Util.cpp:31 | "ON" does not match the command "on", while "on" does. |
| CliUtil.PrintUsage | fdbcli/Util.cpp:34-41 | A registered command's usage line goes to standard output; any other command gets the unknown-command error on standard error. |
| ApiVersioner.PositiveResponse | contrib/apiversioner.py:79-80 | positive_response; PositiveResponseSpellings states it accepts exactly "y" and "yes" in any mix of cases. |
| ApiVersioner.PositiveResponseSpellings | contrib/apiversioner.py:79-80 | A reply is positive exactly when it is "y" or "yes" in any mix of cases. |
| ApiVersioner.PositiveResponseExamples | contrib/apiversioner.py:79-80 | "Y", "yEs" and "YES" are accepted; "", "n", "yeah" and " y" are not. |
| ApiVersioner.PyIndex | contrib/apiversioner.py:99 | Python's clamping of a slice bound: negative bounds count from the end, and bounds past the end stop at the end. |
| ApiVersioner.RewrittenOffset | contrib/apiversioner.py:94-100 | After the splices, offset is the total length change, the sum of len(new_str) minus each span's length. |
| ApiVersioner.RewrittenAscending | contrib/apiversioner.py:94-100 | For ascending, non-overlapping spans, the loop replaces each span by new_str and keeps everything between them. The result has length len(line) plus the total change. |
| ApiVersioner.EachSpanReplaced | contrib/apiversioner.py:94-100 | For ascending spans, new_str appears at each span's start shifted by the change made before it. |
| ApiVersioner.Confirmed | contrib/apiversioner.py:109-113 | A declined confirmation restores the original line; otherwise the rewritten one is kept. |
| ApiVersioner.RewriteOneLine | contrib/apiversioner.py:91-100 | The nested regex and match loops compute the spliced line of the as-written specification. |
| ApiVersioner.RewriteMatches | contrib/apiversioner.py:95-100 | The match loop of one regex carries on the splice state of the spans before it. |
| ApiVersioner.SpliceMatch | contrib/apiversioner.py:97-100 | Splicing one match updates the line and the offset as one step of the specification. |
| ApiVersioner.Visited | contrib/apiversioner.py:88-94 | In version mode every line sees version_re. In suspect mode only the first line sees the phrases the iterator still holds, and every later line sees none. |
| ApiVersioner.AsWrittenLineUnchanged | contrib/apiversioner.py:91-116 | A line with no matches, or one whose change is declined, comes out unchanged. |
| ApiVersioner.RewriteLine | contrib/apiversioner.py:91-116 | The body of the line loop computes the as-written output line: the rewrite, then the prompt. |
| ApiVersioner.RewriteLines | contrib/apiversioner.py:84-118 | There is one output line per input line, in order, each the as-written rewrite of its input. dirty holds exactly when some line changed. Suspect mode exhausts the phrase iterator, and after an exhausted iterator it changes nothing. |
| ApiVersioner.VersionMatchKeepsDelimiters | contrib/apiversioner.py:128 | In version mode only group 2, the digits, is replaced; the non-digit characters around it stay. |
| ApiVersioner.IsOldBelowBound | contrib/apiversioner.py:142 | A suspect version is old exactly when it is below new_version if one is given, and below version otherwise. |
| ApiVersioner.ScanSuspects | contrib/apiversioner.py:137-144 | The found loop as written reports an old version only among the first line's remaining phrases, and drains the iterator. |
| ApiVersioner.ScanMissesLaterLines | contrib/apiversioner.py:137-144 | A file whose only old version is on its second line is not found as written, though the intended test finds it. |
| ApiVersioner.ScanSuspectsFixed | contrib/apiversioner.py:137-144 | With the phrases held in a list, found holds exactly when some phrase on some line holds an old version. |
| ApiVersioner.AddressSuspects | contrib/apiversioner.py:135-148 | As written, the suspect branch never changes a file: the scan drains the iterator, and the rewrite that follows sees no phrase. |
| ApiVersioner.AddressSuspectsFixed | contrib/apiversioner.py:135-148 | With a phrase list, a file holding an old version is rewritten line by line when a new version and diffs or a rewrite are asked for, and left alone otherwise. dirty reports a change. |
| ApiVersioner.AddressVersion | contrib/apiversioner.py:150-164 | When a new version and diffs or a rewrite, and not paths only, are asked for, each output line is the line rewrite_lines produces from the matches it is given, with group 2 as the replaced group; otherwise the file is unchanged. A file with no match comes out unchanged, and dirty reports a change. With the matches finditer reports, VersionScan.AddressVersionLineReplaced states that new_str replaces each one's version. |
| ApiVersioner.MatchingIndices | contrib/apiversioner.py:151 | The lines filter yields are exactly the lines search finds the version in, in line order. |
| ApiVersioner.ReportAsWritten | contrib/apiversioner.py:154-164 | As written, `if matching_lines` tests a filter object, which is always truthy: "does not match" is never logged, and paths-only mode reports every file as matching. |
| ApiVersioner.ReportAsWrittenMisreports | contrib/apiversioner.py:154-164 | A file none of whose lines holds the version is reported as matching in paths-only mode. |
| ApiVersioner.ReportFixed | contrib/apiversioner.py:154-164 | Corrected: "does not match" exactly when no line matches, "matches" in paths-only mode exactly when some line does, and otherwise the matching lines. |
| ApiVersioner.CrossRegexMisplaced | contrib/apiversioner.py:92-100 | Matches of two regexes out of line order are spliced at the wrong place: "1 2" becomes "11010" instead of "10 10". |
| ApiVersioner.FixedLineReplacesEverySpan | contrib/apiversioner.py:92-100 | The corrected rewrite sorts the spans of all regexes, a permutation into ascending order, and replaces every one of them by new_str. |
| ApiVersioner.FixedLineAgrees | contrib/apiversioner.py:94-100 | With a single regex, whose matches come in line order, the corrected rewrite gives what the source gives. |
| ApiVersioner.FixedOutputLineUnchanged | contrib/apiversioner.py:91-116 | In the corrected rewrite too, a line without matches, or with a declined change, is unchanged. |
| ApiVersioner.RewriteLineFixed | contrib/apiversioner.py:91-116 | The line loop body computes the corrected output line. |
| ApiVersioner.RewriteLinesFixed | contrib/apiversioner.py:84-118 | There is one corrected output line per input line, in order; every line sees every phrase, and dirty holds exactly when some line changed. |
| VersionScan.IntToStringIsVersionString | contrib/apiversioner.py:128 | str(version) is a digit or a minus sign followed by digits. |
| VersionScan.VersionTail | contrib/apiversioner.py:128 | Group 3 of version_re is one character after the version that is not an ASCII digit, or empty at the end of the line. |
| VersionScan.VersionAfter | contrib/apiversioner.py:128 | Once group 1 has matched, a match is (group 1)(the version)(group 3), in that order. |
| VersionScan.VersionReAt | contrib/apiversioner.py:128 | A match of version_re at a position starts there, and its group 2 is the version; group 1 is the line start or one character that is not an ASCII digit. |
| VersionScan.VersionFindIter | contrib/apiversioner.py:95-128 | finditer for version_re, resuming at the end of each match; VersionFindIterSound states what every reported match is, VersionFindIterPair and VersionFindIterMissesNeighbour what it reports on v,v. |
| VersionScan.VersionFindIterSound | contrib/apiversioner.py:95 | Every match finditer reports has version_re's shape with the version as group 2, its group 0 runs from group 1 to group 3, and matches do not overlap. |
| VersionScan.VersionFindIterReported | contrib/apiversioner.py:95 | The matches finditer reports are shaped (group 1)(version)(group 3), and each ends before the next one starts. |
| VersionScan.ReportedAscending | contrib/apiversioner.py:95-98 | The group 2 spans of such matches are ascending, as the rewrite loop needs. |
| VersionScan.ReportedReplaced | contrib/apiversioner.py:95-100 | On such matches the rewrite loop equals the reference replacement, and new_str sits at each match's group 2 start shifted by the length change of the matches before it. |
| VersionScan.AsWrittenLineReplaced | contrib/apiversioner.py:90-116 | Unless the change is declined, the line rewrite_lines returns holds new_str at each such match's shifted start. |
| VersionScan.AddressVersionLineReplaced | contrib/apiversioner.py:95-161 | In the version branch, with the matches finditer reports for version_re, the output line holds new_str in place of every reported version unless the change is declined. |
| VersionScan.VersionFindIterNoRoom | contrib/apiversioner.py:95 | No match starts where fewer characters remain than a delimiter and the version need. |
| VersionScan.VersionFindIterPair | contrib/apiversioner.py:95 | In the line v,v finditer reports one match: the first v, with the comma as its group 3. |
| VersionScan.VersionFindIterMissesNeighbour | contrib/apiversioner.py:95-128 | As written, in v,v (for example 610,610) the second v stands alone but is not reported, so the rewrite leaves it as it was. |
| VersionScan.StandaloneApart | contrib/apiversioner.py:127 | Two standalone occurrences of a version string never overlap. |
| VersionScan.StandaloneSpans | contrib/apiversioner.py:126-127 | The corrected scan for the occurrences the comment intends; StandaloneSpansSound and StandaloneSpansComplete state that it reports exactly the standalone occurrences, in order. |
| VersionScan.StandaloneSpansSound | contrib/apiversioner.py:127 | Corrected scan: every span reported is an occurrence of the version not part of a larger number, and the spans are in order. |
| VersionScan.StandaloneSpansComplete | contrib/apiversioner.py:127 | Corrected scan: every occurrence of the version not part of a larger number is reported. |
| VersionScan.StandaloneSpansAscending | contrib/apiversioner.py:127 | The corrected scan's spans are ascending and include every standalone occurrence. |
| VersionScan.StandaloneSpansReplaced | contrib/apiversioner.py:92-127 | With the corrected scan, the rewrite loop puts the new version at every standalone occurrence of the old one. |
| VersionScan.StandaloneSpansPair | contrib/apiversioner.py:127 | The corrected scan of v,v reports both occurrences. |

## Left out

- `TraceVector` is left out: its methods are declared in flow/TraceValue.h without bodies.
- The `toString` bodies of `TraceBool` and `TraceCounter` are not in the header. They are parameters of the model, and so is `sizeof(TraceValue)`.
- Doubles (trace counter rates, latency samples, float and double config values) are modelled as real numbers, without floating-point rounding.
- CRC-32C, `Tuple::unpack` and `deterministicRandom()->randomUniqueID()` are parameters of the model. Their code is not part of this model.
- `ContinuousSample` is modelled as the sequence of samples added, without its reservoir bound of 1000. `Counter` is modelled as a natural number, without its rate bookkeeping, and so are the `uint64_t` counts of `ssErrorsByCode` and `tssErrorsByCode`, without 64-bit wrap-around.
- Arena allocation, 4096-byte alignment, the `VALGRIND` macros and the `userData` destructor of `ArenaPage` are memory plumbing and are left out. The `IPagerSnapshot` and `IPager2` interfaces have no behaviour.
- Pager.ConcatPages: does not model the `int` overflow of `pages.size() * usableSize`. It also requires the first page's logical size to fit its buffer, without which the copy would write past the superpage's buffer.
- Pager.ArenaPage.CloneContents: requires the page to own a buffer at least as large as its logical size. A sub-page, whose buffer size is 0, would make the source copy past its new buffer.
- `TraceEvent` logging, `printf`/`fprintf` output and the trace-string loops in `TSS_doCompare` are output only and are left out.
- The UID encoding of `BinaryWriter` is assumed to be `first()` then `second()`, each as 8 little-endian bytes, which is the raw memory of a UID on little-endian machines.
- In GlobalConfig, `migrate`, the transaction reads of `refresh` and `updater`, `onInitialized`, `onChange` and the `configChanged` trigger are actor and transaction I/O. The model takes what those reads return as parameters.
- Callbacks are modelled by identity. Invoking one appends an event to a log; what a callback itself does is not modelled.
- The regular-expression engine of apiversioner.py is left out. `VersionScan` models `finditer` for version_re alone. ApiVersioner takes what `finditer` returns on each line as lists of group spans, and the version numbers the suspect phrases match as integers.
- ApiVersioner.AddressVersion: replaces group 2 of the matches it is given, not of every occurrence. version_re consumes the non-digit after each version, and finditer resumes after it, so in "610,610" or "[610 610]" the second occurrence is never reported (`VersionScan.VersionFindIterMissesNeighbour`).
- VersionScan.VersionReAt: treats only ASCII `0`-`9` as digits in group 1, where Python's `\d` in a str pattern compiled without `re.ASCII` matches every Unicode decimal digit (category Nd). A version preceded by such a digit, as in "٠610" (ARABIC-INDIC DIGIT ZERO, then 610), is a match in the model and not in the source. `VersionFindIter`, `StandaloneAt` and `StandaloneSpans` share this digit class.
- VersionScan.VersionTail: treats only ASCII `0`-`9` as digits in group 3, so a version followed by a non-ASCII decimal digit, as in "610٠", is a match in the model and not in the source.
- The file walking, `open`/`write`, `argparse`, diff printing and logging of apiversioner.py are I/O, and `input()` answers are given as a list. The excluded-file filter of `address_file` is part of the file walk.
- ApiVersioner.PositiveResponse: lower-cases ASCII letters only. No other character lower-cases to 'y', 'e' or 's', so the verdict is the same.
- ApiVersioner.RewriteLines: the drain of the phrase iterator is modelled as one step that gives away all remaining phrases, not phrase by phrase.
- fdbserver/TCServerInfo.h declares only fields and methods; a machine is modelled as a record carrying its `machineID`.
- The restore interface files, `restoreStatusKeyFor`, `restoreStatusValue` and the `IncludeVersion` encoders rely on protocol-versioned framing that is not part of this model.

## Findings

| source | as written | input that shows it | evidently intended | confidence | as-written member | corrected member |
|---|---|---|---|---|---|---|
| contrib/apiversioner.py:61-70 | `SUSPECT_PHRASES` is built with `map`, which in Python 3 is a one-shot iterator. The found loop of `address_file` (137-144) gives every phrase to line 0 of the first file and none to later lines. The suspect-mode rewrite (146-148, 94) then finds the iterator empty and changes nothing. | A file whose only old `#define FDB_API_VERSION 600` is on its second line is not reported. The first file visited, if it has one on its first line, is reported but never rewritten; later files are not reported even then. | A list of compiled phrases, checked on every line of every file, with each suspect version rewritten. | not executed | ApiVersioner.ScanMissesLaterLines, ApiVersioner.AddressSuspects | ApiVersioner.ScanSuspectsFixed, ApiVersioner.AddressSuspectsFixed |
| contrib/apiversioner.py:92-100 | One `offset` accumulates over all regexes of a line, but each regex's spans are positions in the original line. A later regex matching left of an earlier one is spliced at a shifted place. | The line "1 2" with new version "10": regex 0 matches "2" at 2, then regex 1 matches "1" at 0, giving "11010" instead of "10 10". A real line: `API_VERSION = 10; x.selectApiVersion(10)` with new version 710. As written, suspect mode reaches rewrite_lines only after the first row's drained iterator, so this shows once that row is corrected. | Every matched span is replaced in the original line, whatever regex found it. | not executed | ApiVersioner.CrossRegexMisplaced | ApiVersioner.FixedLineReplacesEverySpan |
| contrib/apiversioner.py:127-128 | version_re's third group consumes the non-digit after the version, and finditer resumes after the match. A standalone version right after that delimiter cannot use it as its group 1. | The line "610,610" with version 610 and new version 700: only the first 610 is reported and rewritten, giving "700,610". | Every occurrence not part of a larger number is replaced, as the comment on line 127 says: lookarounds `(?<!\d)610(?!\d)` consume no delimiter. | not executed | VersionScan.VersionFindIterMissesNeighbour | VersionScan.StandaloneSpansComplete, VersionScan.StandaloneSpansReplaced |
| contrib/apiversioner.py:151-164 | `matching_lines` is a `filter` object, which is always truthy. `if matching_lines` never fails, line 164 never runs, and with `--paths-only` every file that is not excluded is logged as matching. | A file none of whose lines holds version 610, run with paths only: "File ... matches" is logged. | Test the filtered lines, for example `list(filter(...))`, so that a file matches exactly when some line does. | not executed | ApiVersioner.ReportAsWrittenMisreports | ApiVersioner.ReportFixed |
