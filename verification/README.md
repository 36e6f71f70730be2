# A verified model of jt-snmpd

jt-snmpd is an SNMP agent for Windows. Its design rests on one claim: the MIB is a single
sorted array of (OID, value) pairs, and protocol correctness follows from the array being
sorted. This project models that array and the protocol operations on it, the BER encoder
behind the responses, the gate in front of the decoder, the three state files with the
identities they carry, and the two firmware parsers, and proves what each of them is for.

The modules, by component:

- `Oids`, `Values`, `Mib`, `Build`, `Controllers`, `Bulk`, `Walk`: OIDs in tuple order, the
  snapshot, GET, GETNEXT and GETBULK, the interleaved bulk handler, and a manager's whole walk
  while the snapshot is replaced between its requests.
- `Bits`, `Wire`, `BerDecoder`, `WireRoundTrip`, `Sizes`, `Response`: the hand-written encoder,
  a reader written from X.690 that undoes it, size prediction, and whole response messages.
- `PreAuth`, `PreAuthRuns`, `PreAuthBounds`: the gate as an object, then whole event sequences
  of packets from many sources and prunes, compared with an ideal limiter that never forgets.
- `Json`, `AtomicStore`, `Engine`, `EngineRuns`, `EngineReplays`, `EngineMachine`,
  `EngineDamage`, `EngineFailures`, `IndexMap`, `UserStore`: the save pattern as a small file system with a crash
  possible between any two steps, and on top of it the SNMPv3 engine identity over whole
  histories of starts, interface indices, and the SNMPv3 user store with provisioning.
- `Smbios`, `Wnode`: parsers of firmware buffers.

`Common` holds the option type and bytes, `Sorting` a stable sort. Code that updates state in place is a class or a
method with loops, proved equal to a specification function; the main results are lemmas about
those functions over every input, every sequence of requests or every history. Times and token
counts in the gate are exact reals.

## Where the code differs from what is said about it

Each comes with a concrete input and with the exact condition for the code to do as it is said to.

- A maximum count of zero makes a slice answer endOfMibView although rows remain
  (`Mib.ZeroCountHidesRows`; exactly when: `Mib.SliceEndsIff`).
- The deployed GETNEXT consults no access function while the slice does
  (`Controllers.DeployedNextIgnoresAccess`; `Controllers.DeployedNextAgreesIff`).
- The architecture notes say a walk in progress keeps the old snapshot (README.md:166; also
  bench/gate_c/snapshot.py:25-30). Each request reads the arrays afresh, so a walk moves to the new
  one at its next request and can return rows that are in neither (`Walk.WalkMixesSnapshots`). It
  goes unnoticed exactly when the readable rows above the cursor are the same
  (`Walk.SwapIsInvisibleIff`).
- At the end of the view the assembled response holds an empty varbind list where the slice holds
  endOfMibView (`Response.EmptyListAtTheEnd`; `Response.DecodedIsSliceIff`).
- The prototype's bulk handler is said to truncate at 1400 bytes. In its multi-repeater loop the
  byte budget is compared but never spent, so the answers stay within it on every snapshot exactly
  when there is at most one of them (`Bulk.InterleavedFitsIff`, with one long row as the input).
- Integers at the negative boundaries -2^(8k-1) carry one redundant octet, which X.690 section
  8.3.2 forbids and the code does deliberately (`WireRoundTrip.MinusOneTwentyEight`;
  `WireRoundTrip.IntIsShortestIff`).
- `_plan_engine_state` promises that the boots counter never goes backwards and that the ceiling
  brings a new engineID. The fresh id is derived from the same MachineGuid, so at 2^31-1 the id
  stays and the counter returns to 1 (`Engine.CeilingRegresses`; `Engine.OneMachineStepIff` for one
  start, `EngineMachine.HistoriesAdvanceIff` for any number of them).
- A new identity's counter is said to have never been used. It has when a guid returns: the
  MachineGuid is read, once it cannot be and the hostname stands in, then it is read again, and
  boots 1 is served twice under one id (`EngineReplays.HostnameDetourReusesPair`;
  `EngineReplays.NewMachineIsSafeIff`).
- A hand-edited `"boots": true` equals 1 in Python's comparison, so the planned document can be
  taken for the one on file, and the next boot serves the same pair again
  (`EngineReplays.TrueCountReusesPair`; `EngineReplays.AnyDiskIsSafeIff`).
- An identity that could not be written is served all the same, at boots 1, so a pair can come again
  on a machine whose disk fails once (`EngineFailures.FailedSaveReplays`;
  `EngineFailures.FailuresAreSafeIff`).
- The .bak that a load falls back to is one save old, so after damage to the current file a pair or
  an index can come again at once (`EngineDamage.DamageReplays`, `IndexMap.DamageSharesIndex`); and the
  next save moves the damage over the .bak, so a crash in it loses both
  (`EngineDamage.CrashOverDamageReplays`, `IndexMap.CrashOverDamageSharesIndex`). Exactly when:
  `EngineDamage.PairRepeatsIff`, `IndexMap.IndexRepeatsIff`.
- An index map whose save failed is still served; a later enumeration can hand the same index to
  another adapter (`IndexMap.SurvivedFailureSharesIndex`; `IndexMap.ConsistentAfterIff`).
- Saving over a damaged state file moves the damage over the .bak, and a crash right then leaves
  nothing usable (`AtomicStore.CrashLosesBackup`; `AtomicStore.CrashIsHarmlessIff`).
- A user store saved for one engine can still give users to another, out of the .bak
  (`UserStore.OlderEngineStillLoads`; `UserStore.OtherEngineGetsNoneIff`).
- A provisioning entry that is not an object ends the consumption: nothing is saved, though the
  number returned counts the users before it (`UserStore.OneBadEntryStoresNothing`;
  `UserStore.CountedAreStoredIff`).
- An SMBIOS table of declared length 0 is taken for one without a length, and what follows it is
  parsed (`Smbios.EmptyTableReadsOn`; `Smbios.EmptyTableIff`).
- WMI instance names go by position among the instances kept, while the name table goes by
  entry, so a skipped entry shifts every later name (`Wnode.SkippedEntryShiftsNames`; `Wnode.NameSlotIsEntryIff`).

## Model

| member | source | states |
|---|---|---|
| Mib.BisectRightIsBorder | deploy/jt_agent.py:3287-3296 | on a sorted array bisect_right is the border between the OIDs at most x and those above it |
| Mib.BisectLeftIsBorder | deploy/jt_agent.py:3275-3285 | on a sorted array bisect_left is the border between the OIDs below x and those at least x |
| Mib.NextIsLeastAbove | bench/gate_c/snapshot.py:75-95 | GETNEXT answers with the least readable OID above the one asked and the value beside it, and with endOfMibView of that name exactly when there is none (RFC 3416 section 4.2.2) |
| Mib.PermittedFromIsExact | bench/gate_c/agent.py:58-70 | the list the slice results are compared with holds exactly the readable rows at or past an index, ascending |
| Mib.ChainVisitsPermitted | bench/gate_c/snapshot.py:75-95 | k successive GETNEXTs visit the first k readable rows above the start, in order, skipping none |
| Mib.EndIsAbsorbing | bench/gate_c/snapshot.py:86-94 | once a chain of GETNEXTs has met endOfMibView every later answer is the same one |
| Mib.SliceIsLongestRun | bench/gate_c/agent.py:45-74 | for any access function, count of at least 1 and byte budget, a run of readable rows fits the limits if and only if it is no longer than what the slice takes; the slice takes a row whenever there is one |
| Mib.SliceIsChain | deploy/jt_agent.py:3298-3330 | a slice equals as many single GETNEXT steps |
| Mib.SliceEndsIff | deploy/jt_agent.py:3328-3330 | the slice is endOfMibView if and only if no readable row lies above the name or the count is not positive |
| Mib.ZeroCountHidesRows | deploy/jt_agent.py:3314-3330 | a concrete snapshot whose row a zero count hides |
| Mib.PagesAreIteratedNext | bench/gate_c/agent.py:45-74 | for any sequence of counts and budgets, the concatenated slices of one snapshot are iterated GETNEXT |
| Mib.UnsizedSlice | bench/gate_c/agent.py:65-68 | without precomputed sizes a slice holds as many readable rows as the count and a 64th of the bytes allow, and one in any case |
| Controllers.LeftFinds | deploy/jt_agent.py:3280-3281 | the position bisect_left gives holds the name if and only if the snapshot does |
| Controllers.GetByCases | bench/gate_c/snapshot.py:58-71 | what GET answers a name: its row, noSuchObject when the view denies it, noSuchInstance when the snapshot lacks it |
| Controllers.SnapshotController.constructor | deploy/jt_agent.py:3272-3273 | a controller over two sorted aligned arrays |
| Controllers.SnapshotController.Swap | deploy/jt_agent.py:3530-3534 | the handover replaces both arrays, and the controller is valid again |
| Controllers.SnapshotController.ReadVariables | deploy/jt_agent.py:3275-3285 | GET answers each name with its row, or noSuchInstance exactly when the snapshot lacks it; no row is denied |
| Controllers.SnapshotController.ReadNextVariables | deploy/jt_agent.py:3287-3296 | each answer is the least OID above the name, whatever its access |
| Controllers.SnapshotController.ReadNextSlice | deploy/jt_agent.py:3298-3330 | the loop yields the specified slice, with predicted sizes |
| Controllers.DeployedNextAgreesIff | deploy/jt_agent.py:3287-3330 | a one-row slice agrees with the deployed GETNEXT if and only if the next row of the array is readable |
| Controllers.DeployedNextIgnoresAccess | deploy/jt_agent.py:3287-3330 | a concrete snapshot and view for which the deployed GETNEXT answers a denied row and the slice passes over it |
| Controllers.SliceableSnapshotController.constructor | bench/gate_c/snapshot.py:51-52 | a controller over one immutable snapshot |
| Controllers.SliceableSnapshotController.ReadVariables | bench/gate_c/snapshot.py:55-72 | GET answers the row, noSuchObject when access denies it, noSuchInstance when it is absent |
| Controllers.SliceableSnapshotController.ReadNextVariables | bench/gate_c/snapshot.py:75-95 | each answer is the first readable row above the name; denied rows are passed over and do not end the walk |
| Controllers.SliceableSnapshotController.ReadNextSlice | bench/gate_c/agent.py:45-74 | the loop yields the specified slice, with precomputed sizes or 64 bytes a row without them |
| Build.SortSorts | deploy/jt_agent.py:3188 | the sort orders the pairs by OID and keeps every one of them |
| Build.BuildTail | deploy/jt_agent.py:3188-3197 | comparing neighbours suffices: the arrays come out strictly sorted if and only if no OID was added twice, and read row by row they hold exactly the pairs added; a refusal names an OID that was |
| Build.CollectionOrderIsIrrelevant | deploy/jt_agent.py:3188-3197 | the snapshot does not depend on the order in which collectors added rows |
| Bulk.HandleBulk | bench/gate_c/agent.py:91-127 | one repeater alone gets the slice; otherwise N single successors followed by M rounds over the repeaters, where entry i*R+j is the (i+1)-th successor of repeater j; states exactly when no response is sent |
| Bulk.Repeat | bench/gate_c/agent.py:117-123 | the loop appends exactly M rounds; its byte budget never stops it |
| Bulk.RoundsInterleave | bench/gate_c/agent.py:119-123 | M rounds satisfy RFC 3416 section 4.2.3: their number is M*R, and entry j of round i is the (i+1)-th successor of repeater j |
| Bulk.AtIsProduct | bench/gate_c/agent.py:119-123 | entry j of round i stands at i*R+j |
| Bulk.InterleavedLength | bench/gate_c/agent.py:116-123 | the interleaved response holds N + M*R varbinds |
| Bulk.InterleavedFitsIff | bench/gate_c/agent.py:85-89 | interleaved responses stay within the budget or hold one varbind, for every snapshot, if and only if there is at most one varbind to answer |
| Bulk.AnswersSizeIsWireLength | bench/gate_c/agent.py:85-89 | the size counted against the budget is the length of the answers' encodings |
| Bulk.HandleCappedBulk | deploy/jt_agent.py:3353-3387 | the deployed responder answers by itself exactly for one repeater and no non-repeaters, with count capped at 25 and 1160 bytes |
| Walk.WalkAscends | deploy/jt_agent.py:3298-3330 | whatever snapshots, views, counts and budgets the requests are served with, a walk returns strictly ascending OIDs above its start |
| Walk.WalkIsSound | deploy/jt_agent.py:3298-3330 | every varbind returned is a readable row, name and value, of a snapshot that was served |
| Walk.WalkIsComplete | deploy/jt_agent.py:3530-3534 | every OID past the start that all snapshots served offer is returned before endOfMibView, and before the walk passes it |
| Walk.WalkReturnsOnce | deploy/jt_agent.py:3530-3534 | no OID is returned twice, across any swaps |
| Walk.WalkTerminates | deploy/jt_agent.py:3328-3330 | with OIDs from a finite universe of U, the walk ends within U+1 requests |
| Walk.SteadyWalkIsExact | README.md:151-158 | a finished walk of one unchanging snapshot is exactly its readable rows above the start, whatever the counts and budgets |
| Walk.SteadyWalkSoFar | deploy/jt_agent.py:3298-3330 | a walk of one snapshot that has not ended has returned exactly its readable rows above the start and not above the cursor |
| Walk.SwapSplicesWalk | deploy/jt_agent.py:3530-3534 | a walk that meets one swap returns the old snapshot's rows up to the cursor at the swap, then the new snapshot's rows after it |
| Walk.SwapIsInvisibleIff | README.md:164-166 | such a walk is the old snapshot's if and only if both have the same readable rows above the cursor |
| Walk.WalkMixesSnapshots | README.md:164-166 | a concrete walk whose rows are in neither snapshot |
| Bits.BitLengthIsLeast | bench/gate_c/wire.py:42-54 | bit_length is the least k with n < 2^k |
| Bits.SeptetCount | bench/gate_c/snapshot.py:157-158 | (bit_length + 6) // 7 is the number of base-128 digits |
| Bits.TopBit | bench/gate_c/wire.py:54-55 | the top bit of the big-endian octets says whether the number reaches half their range |
| Wire.LengthOctetsFit | bench/gate_c/wire.py:42-43 | the long form's octets hold the length, and there are at most 2, 4 or 8 of them below 2^16, 2^32 and sys.maxsize |
| Wire.IntFits | bench/gate_c/wire.py:54-55 | two's complement always fits the octets chosen, for every integer |
| Wire.Chunks | bench/gate_c/wire.py:68-72 | shifting and reversing gives the base-128 digits, most significant first |
| Wire.AppendChunks | bench/gate_c/wire.py:73-75 | all digits but the last are appended with the continuation bit |
| Wire.EncodeOidContent | bench/gate_c/wire.py:58-76 | the nested loops append the encoding of every sub-identifier in turn; fewer than two arcs is the error |
| Wire.TwoArcsSuffice | bench/gate_c/wire.py:58-115 | two arcs are all that is asked of an OID: every other varbind is refused, every such one with contents of up to 2^62 octets is encoded, with headers of at most 30 octets |
| WireRoundTrip.LengthRoundTrip | bench/gate_c/wire.py:38-43 | a length field is read back, whatever follows it |
| WireRoundTrip.ElementRoundTrip | bench/gate_c/wire.py:46-47 | an element is read back with its content and what follows it (X.690 section 8.1) |
| WireRoundTrip.IntRoundTrip | bench/gate_c/wire.py:50-55 | every integer of either sign is read back (X.690 section 8.3) |
| WireRoundTrip.IntIsShortestIff | bench/gate_c/wire.py:50-55 | an integer is encoded in the shortest form if and only if it is not -2^(8k-1) for some k |
| WireRoundTrip.MinusOneTwentyEight | bench/gate_c/wire.py:50-55 | -128 is encoded in two octets where one would do |
| WireRoundTrip.OidRoundTripIff | bench/gate_c/wire.py:58-76 | an OID is read back as itself if and only if its first arc is at most 2 and, below 2, its second is under 40 (X.690 section 8.19) |
| WireRoundTrip.ValueRoundTrip | bench/gate_c/wire.py:83-110 | tag and content together give back the typed value |
| WireRoundTrip.VarbindRoundTrip | bench/gate_c/wire.py:113-115 | a varbind is read back as X.690 splits its OIDs, which is the varbind itself if and only if the arcs are valid |
| WireRoundTrip.VarbindsDecode | bench/gate_c/wire.py:118-124 | the concatenated encodings of any list decode to the list |
| WireRoundTrip.VarbindsRoundTripIff | bench/gate_c/wire.py:113-124 | the original list comes back if and only if every OID in it has valid arcs |
| WireRoundTrip.VarbindIsPrefixFree | bench/gate_c/wire.py:113-115 | encodings are self-delimiting: none begins another |
| WireRoundTrip.EncodeAllIsInjective | bench/gate_c/wire.py:118-124 | no two lists share an encoding |
| Sizes.ComputeOidContentLen | bench/gate_c/snapshot.py:150-159 | the loop sums the digit counts of the sub-identifiers; 1 for an OID too short to encode |
| Sizes.PrecomputeSizes | bench/gate_c/snapshot.py:191-214 | one predicted size per row, in order |
| Sizes.TlvLenIsExact | bench/gate_c/snapshot.py:142-147 | the predicted element length is the encoder's |
| Sizes.SubLenIsExact | deploy/jt_agent.py:3231-3232 | the predicted length of a sub-identifier is the encoder's |
| Sizes.SizeIsExact | deploy/jt_agent.py:3219-3265 | the predicted size of a varbind is the length of its real encoding, for every OID of two or more arcs and every value |
| Sizes.SizesAreWireLengths | bench/gate_c/snapshot.py:191-214 | precomputed sizes are the lengths of the precomputed encodings, row by row |
| Response.CollectParts | bench/gate_c/profile_path.py:64-76 | the loop collects the encodings of exactly the rows a slice of at most 25 rows and 1280 bytes takes |
| Response.HandleFullWire | bench/gate_c/profile_path.py:54-84 | the bytes sent are the RFC 3416 response around those varbinds |
| Response.VarbindsFitOrSingle | bench/gate_c/profile_path.py:66-76 | the varbinds use at most 1280 bytes or there is exactly one |
| Response.MessageLength | bench/gate_c/profile_path.py:79-84 | the length of the whole message, from those of its varying parts through all nested length fields |
| Response.ResponseFits | bench/gate_c/profile_path.py:66-84 | within the varbind budget, a 32-bit request id and a community of at most 90 octets keep the message within 1400 |
| Response.NinetyIsTight | bench/gate_c/profile_path.py:66-84 | with a full budget and a five-octet request id, the message stays within 1400 if and only if the community has at most 90 octets, whatever its length |
| Response.MessageRoundTrip | bench/gate_c/profile_path.py:79-84 | a manager reads back version, community, request id, no error, and the varbinds |
| Response.OnlyResponsesAreRead | bench/gate_c/profile_path.py:79-84 | the bytes sent are read back only because they carry a message's and a response's tags and nothing behind either |
| Response.ManagerReadsTheRows | bench/gate_c/profile_path.py:54-84 | with the bytes pre-encoded from the snapshot's rows, a manager decodes exactly the rows chosen, names and values |
| Response.DecodedIsSliceIff | bench/gate_c/profile_path.py:64-84 | what a manager decodes is the GETBULK slice if and only if a repetition was asked for and some row lies above the start |
| Response.EmptyListAtTheEnd | bench/gate_c/profile_path.py:64-79 | on an empty snapshot no rows are chosen, where the slice is endOfMibView |
| Response.PredictedSliceFits | deploy/jt_agent.py:3298-3330 | the deployed slice, limited by predicted sizes, encodes to at most its byte budget, or is a single varbind |
| PreAuth.PreAuthGate.constructor | deploy/preauth.py:113-123 | no buckets, all counters zero |
| PreAuth.PreAuthGate.RateOk | deploy/preauth.py:175-189 | refills and spends this source's bucket, touches no other, and says whether a token was there |
| PreAuth.PreAuthGate.Prune | deploy/preauth.py:254-266 | drops exactly the buckets idle for longer than 300 seconds, and returns how many |
| PreAuth.PreAuthGate.Check | deploy/preauth.py:217-252 | the verdict by the first defence that refuses, the new bucket table, and one counter incremented |
| PreAuthBounds.AclRefusesIff | deploy/preauth.py:140-173 | a packet is refused by the allow-list if and only if its source is no address, or neither a loopback address nor in the aligned block of a listed network of its version |
| PreAuthBounds.EmptyListDenies | deploy/preauth.py:158-167 | an empty allow-list refuses every source but the loopback addresses |
| PreAuthBounds.DefencesInOrder | deploy/preauth.py:217-252 | behind the allow-list: size, room for an unknown source, tokens, outer element, each speaking only when those before it let the packet through |
| PreAuthBounds.TableByVerdict | deploy/preauth.py:175-244 | what a packet leaves in the table, by its verdict: nothing changes for one refused by address or size, a full table loses its idle sources, and the source's own refilled bucket gives up a token when it holds one |
| PreAuthBounds.SpendingCosts | deploy/preauth.py:175-189 | an admitted packet costs its source one token and a refused one none |
| PreAuthRuns.RunMatches | deploy/preauth.py:175-266 | from any matching state the gate's verdicts for a source are those of an ideal limiter with one never-deleted, initially full bucket per source |
| PreAuthRuns.PruningIsUnobservableIff | deploy/preauth.py:254-266 | for every rate and burst: pruning is unobservable over all timed runs with room in the table if and only if 1 <= burst <= rate * 300 |
| PreAuthRuns.SourcesDoNotInterfere | deploy/preauth.py:175-189 | what a source is told in any interleaved run, with prunes anywhere, is what it is told alone |
| PreAuthRuns.FewSourcesDoNotInterfere | deploy/preauth.py:234-241 | the same for every run in which at most 4096 sources get past the allow-list and the size cap |
| PreAuthBounds.WindowIsBounded | deploy/preauth.py:234-266 | in any window of any run at most burst + rate * length packets of one source get past the rate step |
| PreAuthBounds.TableIsBounded | deploy/preauth.py:234-241 | the table never holds more than 4096 sources |
| PreAuthBounds.OnlyScreenedInGetEntries | deploy/preauth.py:226-232 | a source without an allowed packet of acceptable size never gets an entry |
| PreAuthBounds.KnownSourceIsNeverTurnedAway | deploy/preauth.py:234-241 | for the idle period after a rate check, a source keeps its entry and never meets a full table, whatever the others send |
| PreAuthBounds.RateCheckedSourceKeepsRoom | deploy/preauth.py:234-245 | after a rate-checked packet, none of that source's packets in the next 300 seconds is refused for a full table |
| PreAuthBounds.CountersCountVerdicts | deploy/preauth.py:226-252 | over any run of packets and prunes each counter grows by the number of calls that had its verdict |
| PreAuthBounds.CountersSumToCalls | deploy/preauth.py:226-252 | over any run the counters together grow by the number of packets |
| PreAuthBounds.TlvSaneIff | deploy/preauth.py:191-214 | the outer check holds if and only if X.690 reads the datagram as one SEQUENCE, of a definite length in at most four octets, that fills it completely |
| PreAuthBounds.BuiltSequencesPassIff | bench/gate_c/wire.py:46-47 | a SEQUENCE the encoder builds passes the check if and only if its content is below 2^32 octets, and its content is recovered |
| PreAuthBounds.NetworkIsBlock | deploy/preauth.py:168-173 | a listed network lets in exactly the addresses of its own version in one aligned block of 2^(width - prefix) |
| Common.LittleEndian | deploy/smbios.py:127 | 16- and 32-bit fields are read least significant byte first |
| Json.EqualityByKinds | deploy/jt_agent.py:1668-1697 | Python's equality of document values: numbers by value with true and false as 1 and 0, anything else only to itself |
| AtomicStore.StateFile.constructor | deploy/jt_agent.py:1705-1714 | a state file over the disk as it is found |
| AtomicStore.StateFile.Save | deploy/jt_agent.py:1725-1738 | the disk after a save that completes, or dies after any number of its steps, with or without the .bak rename |
| AtomicStore.StateFile.LoadState | deploy/jt_agent.py:1705-1722 | the main file's value when usable, else the .bak's, else nothing |
| AtomicStore.SaveIsAtomic | deploy/usm.py:251-278 | when the main file is absent or usable, a load before the last step of a save still gives the old value, after it the new one, at every crash point |
| AtomicStore.CrashesLoseNothing | deploy/jt_agent.py:1892-1942 | when the main file is absent or usable: over any sequence of saves, each crashed at any step or completed, a load gives the value committed last, never nothing once something was |
| AtomicStore.CrashesLoseNothingIff | deploy/jt_agent.py:1892-1942 | for any disk: that holds of all sequences of saves if and only if the main file was absent or usable, or nothing on disk was usable |
| AtomicStore.BackupServes | deploy/jt_agent.py:1705-1738 | when only the main file is damaged or lost after a save, the value before that save is loaded |
| AtomicStore.CrashIsHarmlessIff | deploy/jt_agent.py:1733-1738 | a save is atomic at every step if and only if the main file was absent or usable, or nothing on disk was usable |
| AtomicStore.CrashLosesBackup | deploy/jt_agent.py:1733-1738 | a concrete crash, over a damaged main file, after which nothing loads |
| Engine.EngineService.constructor | deploy/jt_agent.py:1741-1755 | nothing resolved yet |
| Engine.EngineService.Resolve | deploy/jt_agent.py:1744-1786 | the planned state is served and cached only once it is on disk, or a volatile one at boots 1 when the write raises; an unchanged document is not rewritten; a second call touches nothing |
| Engine.PlanIsInRange | deploy/jt_agent.py:1622-1702 | from any prior document, however damaged, boots is in 1..2^31-1 and the identity is this machine's |
| Engine.UpgradeKeepsCount | deploy/jt_agent.py:1656-1667 | a file without an identity gets the fresh id and keeps its count, plus one in another boot, within 1..2^31-1 |
| Engine.ForeignGuidStartsOver | deploy/jt_agent.py:1668-1688 | an identity made for another guid is replaced at boots 1, as a rename if and only if the file says hostname, else as a clone |
| Engine.OwnGuidGoesOn | deploy/jt_agent.py:1689-1702 | an identity made for this guid is kept with its count, plus one in another boot, until that reaches 2^31-1 |
| Engine.NoObjectSaysNothing | deploy/jt_agent.py:1648 | what is not an object counts as a file that says nothing |
| Engine.RecordedSourceDecides | deploy/jt_agent.py:1763-1766 | the source recorded at one start is what tells a rename from a clone at another |
| Engine.RestartKeepsPair | deploy/jt_agent.py:1697-1702 | a restart within one boot below the ceiling keeps the pair, and leaves the file alone when the identity's source is the same |
| Engine.OneMachineStepIff | deploy/jt_agent.py:1689-1702 | on one machine a start does not fall behind, and moves on with the boot key, if and only if the count is below the ceiling |
| Engine.CeilingRegresses | deploy/jt_agent.py:1761-1762 | a concrete history in which the ceiling brings boots 1 under the same engineID |
| EngineRuns.StartLands | deploy/jt_agent.py:1756-1771 | with a plain count on file or a document that is no plan, a start leaves its planned state on file, or what was there, or nothing when its save dies over a damaged file |
| EngineRuns.LaterAgree | deploy/jt_agent.py:1622-1702 | while no guid returns, no ceiling is met and the saves are over a usable file or complete, a pair the file holds is never served in another boot |
| EngineRuns.PairIsNeverReused | deploy/jt_agent.py:1622-1702 | over histories of boots, restarts, clones, renames and crashed saves, with ids derived from the guids and the count on file plain or its document no plan, no (engineID, boots) pair is served in two boots as long as no guid returns after another, no count meets its ceiling, and the main file is usable, or every start writes before it serves, or all saves complete |
| EngineRuns.RoomIsBelowCeiling | deploy/jt_agent.py:1689-1702 | no count meets its ceiling when no guid spans more starts than its distance from it |
| EngineRuns.ShortHistoryHasRoom | deploy/jt_agent.py:1689-1691 | nor in a history shorter than that distance |
| EngineReplays.NewMachineIsSafeIff | deploy/jt_agent.py:1668-1702 | where nothing was recorded: for any sequence of guids, no history reuses a pair if and only if no guid returns and none spans 2^31-1 starts |
| EngineReplays.HostnameDetourReusesPair | deploy/jt_agent.py:1756-1766 | a concrete history, MachineGuid, hostname, MachineGuid, that serves one pair in two boots |
| EngineReplays.AnyDiskIsSafeIff | deploy/jt_agent.py:1705-1771 | for any disk, damaged or not: over all histories in which no guid returns and no ceiling is met, no pair is reused if and only if no start can take the document found for its plan, or its count is plain and the main file absent or usable |
| EngineReplays.TrueCountReusesPair | deploy/jt_agent.py:1769-1770 | a concrete hand-edited file with which a pair is served in two boots |
| EngineMachine.ServedFollows | deploy/jt_agent.py:1622-1702 | on one machine below the ceiling, with a usable main file or completed saves, every pair served keeps the id and does not fall behind the file |
| EngineMachine.ServedPairsAdvance | deploy/jt_agent.py:1725-1771 | on one machine below the ceiling, with crashes at any file step, the pairs served never go back and increase strictly between boots: from a plain count in a usable main file, from any document that is no plan (none, a schema 1 file or another machine's among them), or with completed saves |
| EngineMachine.MachineAdvancesIff | deploy/jt_agent.py:1705-1771 | for any disk of the machine: all its histories below the ceiling advance if and only if no start can take the document found for its plan, or its count is plain and the main file absent or usable |
| EngineMachine.RestartsServeOnePair | deploy/jt_agent.py:1694-1702 | under the same conditions all starts in one boot serve one pair, wherever their saves die |
| EngineMachine.FarFromCeiling | deploy/jt_agent.py:1689-1702 | each start adds at most one to the count carried, so the ceiling is out of reach for as many starts as remain |
| EngineMachine.UpgradedHistoryGoesOn | deploy/jt_agent.py:1658-1667 | from a file with a count n and no identity, over all histories of one machine below the ceiling, every pair served has at least n boots, and more in another boot |
| EngineMachine.HistoriesAdvanceIff | deploy/jt_agent.py:1622-1702 | from a usable file of the machine, all histories of n starts follow it and advance if and only if n is 0 or boots + n is at most 2^31-1 |
| EngineDamage.PairRepeatsIff | deploy/jt_agent.py:1705-1738 | over any history with crashes and damage to either file: no further history of the machine below the ceiling, crashes included, reuses a pair if and only if none was and every pair served is held by what a load now gives, and the main file is absent or usable, or nothing was served and no start can take the document for its plan (or the ceiling is met already) |
| EngineDamage.DamageReplays | deploy/jt_agent.py:1705-1722 | a concrete history in which the boot after a damaged main file serves the pair of the boot before |
| EngineDamage.CrashOverDamageReplays | deploy/jt_agent.py:1725-1738 | a concrete history in which a crash over a damaged main file loses the .bak too, and boots 1 is served again |
| EngineFailures.FailuresAreSafeIff | deploy/jt_agent.py:1769-1786 | where nothing was recorded: for any sequence of starts that complete, die or raise in their save, no history reuses a pair if and only if no save that raises shares it with another start that serves |
| EngineFailures.FailedSaveReplays | deploy/jt_agent.py:1772-1785 | a concrete history in which the boot after a save that raised serves the same pair |
| IndexMap.GetInterfaces | deploy/jt_agent.py:1945-2015 | filters, assigns, saves when something changed, and serves the recorded indices in index order |
| IndexMap.SortSorts | deploy/jt_agent.py:2012 | the final sort orders by index, and loses and invents nothing |
| IndexMap.ServedAreTheHardware | deploy/jt_agent.py:1962-1979 | exactly the hardware adapters that are no filter, loopback or team member are served, one for one |
| IndexMap.NewIndicesAreConsecutive | deploy/jt_agent.py:1981-1987 | new adapters get the indices from the next one on without a gap, and no index is given again |
| IndexMap.FirstIndexIsOne | deploy/jt_agent.py:1908-1922 | the map comes from the main file, else the .bak, else indices start at 1 |
| IndexMap.EnumerationExtends | deploy/jt_agent.py:1962-1987 | in whatever order adapters are listed, every assignment is kept, none is shared, and all that is served is in the new map |
| IndexMap.ServedIsRecordedIff | deploy/jt_agent.py:2010-2011 | on any disk, all that is served is in the map a load then gives if and only if the save got through or nothing was new |
| IndexMap.HistoryIsRecorded | deploy/jt_agent.py:1892-2015 | while the main file is absent or usable, what is on record stays over all history, and unless a failed save is survived what is served gets there |
| IndexMap.IndicesAreConsistentForever | deploy/jt_agent.py:1892-2015 | from an absent or usable main file, over any enumeration orders, adapters coming and going and crashes during saves, as long as no failed save is survived, two pairs ever served have the same LUID if and only if they have the same index, and next_if_index is above all |
| IndexMap.SurvivedFailureSharesIndex | deploy/jt_agent.py:1928-1942 | a concrete history in which a failed save that is only logged gives two adapters one index |
| IndexMap.RecordedIsKept | deploy/jt_agent.py:1981-1987 | while the main file is absent or usable, what is on record is never contradicted, by failed and survived saves either |
| IndexMap.ConsistentAfterIff | deploy/jt_agent.py:2010-2011 | on any disk, every later history keeps what an enumeration served if and only if it served nothing, or its save got through or nothing was new and the main file is then absent or usable |
| IndexMap.IndexRepeatsIff | deploy/jt_agent.py:1892-1942 | over any history with failed and survived saves and damage to either file: no later history without survived failures, crashes included, contradicts anything served if and only if nothing did so far, all of it is in the map a load now gives, and the main file is absent or usable or nothing was served and nothing is assigned |
| IndexMap.NextIndexAgreesIff | deploy/jt_agent.py:1892-1942 | the very next enumeration, whatever becomes of it, contradicts nothing if and only if nothing did so far and all served is in the map a load now gives |
| IndexMap.DamageSharesIndex | deploy/jt_agent.py:1892-1922 | a concrete history in which a damaged main file gives two adapters one index |
| IndexMap.CrashOverDamageSharesIndex | deploy/jt_agent.py:1925-1942 | a concrete history in which a crash over a damaged main file loses the .bak too, and two adapters get one index |
| UserStore.HexRoundTrip | deploy/usm.py:202-204 | fromhex undoes hex |
| UserStore.HexByCases | deploy/usm.py:202-204 | lower-case digits, the high one first; upper case and white space between bytes are read, white space within one is not |
| UserStore.HexCharacters | deploy/usm.py:202-204 | six kinds of white space are skipped before a pair; any other character that is no digit spoils the string |
| UserStore.FieldsWritten | deploy/usm.py:199-206 | the written document under its field names, entry by entry |
| UserStore.StoreFromJson | deploy/usm.py:209-248 | the loop yields the usable users and the problems in entry order, for a users field of any shape; the wrong engine yields none |
| UserStore.EntryIsUserIff | deploy/usm.py:234-247 | an entry is a user if and only if it is an object with a non-empty name, accepted algorithms and two hexadecimal keys, and then exactly that user |
| UserStore.GoodEntriesAreKept | deploy/usm.py:233-248 | one bad entry does not take the good ones with it |
| UserStore.OddUsersFields | deploy/usm.py:234 | what stands in place of a list is an empty store, damage, or an uncaught error, by its kind |
| UserStore.AlgorithmsByCases | deploy/usm.py:92-115 | each pair of algorithm names is accepted, accepted with a warning, refused or unknown as listed |
| UserStore.EntriesRoundTrip | deploy/usm.py:199-248 | what was written parses back as its valid users, without a problem if and only if all are valid |
| UserStore.DocumentUsable | deploy/usm.py:281-317 | a stored document is an answer if and only if it is for this engine and is empty or holds a valid user |
| UserStore.LoadStore | deploy/usm.py:281-317 | the main file's users when it is an answer, else the .bak's, else none |
| UserStore.SaveThenLoad | deploy/usm.py:251-317 | a save of valid users loads back exactly, the empty list included, whatever the .bak holds |
| UserStore.SaveThenLoadIff | deploy/usm.py:251-317 | any list loads back as its valid users, over every disk, if and only if it is empty or has a valid user |
| UserStore.OtherEngineGetsNoneIff | deploy/usm.py:224-231 | another engine gets what the .bak holds for it, and none if and only if that is no answer or an empty one |
| UserStore.OlderEngineStillLoads | deploy/usm.py:273-278 | a concrete disk from which another engine still loads a user |
| UserStore.LoadedUsersAreStrong | deploy/usm.py:237-248 | whatever is on disk, no load yields a nameless user or one with an algorithm outside the SHA-2 and AES families accepted |
| UserStore.ConsumeProvisioning | deploy/jt_agent.py:1456-1507 | the number returned and the disk left are those specified: valid entries counted and merged into the loaded users, saved only when there was one and every entry was an object |
| UserStore.OneEntryIsStoredIff | deploy/jt_agent.py:1474-1505 | an entry is counted if and only if it has a name, accepted algorithms (SHA-256 and AES-128 by default) and two different passphrases of 12 or more; then the next load holds under its name exactly that user, each localized key in its own place; otherwise nothing changes |
| UserStore.ProvisioningMerges | deploy/jt_agent.py:1471-1505 | users not named are kept, and for each name the last valid entry wins |
| UserStore.ProvisioningIsIdempotent | deploy/jt_agent.py:1481-1485 | consuming the same file again changes nothing, order included |
| UserStore.ProvisionedUsersLoad | deploy/jt_agent.py:1504-1505 | after provisioning the next load gives exactly the merged users |
| UserStore.CountedAreStoredIff | deploy/jt_agent.py:1474-1508 | over every store that loads, with a completed save: all users counted are loaded next if and only if every entry is an object or none before the first that is not was accepted |
| UserStore.OneBadEntryStoresNothing | deploy/jt_agent.py:1474-1508 | a concrete file with one valid user and one entry that is not an object: one is counted, none stored |
| Smbios.Strings | deploy/smbios.py:64-82 | the scanning loop yields the strings and the offset of the next structure on any bytes |
| Smbios.ReadStructure | deploy/smbios.py:133-138 | header, formatted area and strings of one structure |
| Smbios.ParseSmbios | deploy/smbios.py:118-145 | total on any bytes: at most 4096 structures, reading only inside the buffer |
| Smbios.AdvancesByHeader | deploy/smbios.py:132-144 | every accepted structure moves the parser on by at least 4 bytes |
| Smbios.GuardNeverStops | deploy/smbios.py:141-143 | the no-progress guard is never what stops the parser |
| Smbios.FourBytesEach | deploy/smbios.py:132-144 | there are at most a quarter as many structures as bytes |
| Smbios.StringsScanBack | deploy/smbios.py:64-82 | a printed string area scans back to its strings and ends where the next structure begins |
| Smbios.StructureParsesBack | deploy/smbios.py:133-138 | a printed structure is read back anywhere in a table |
| Smbios.PrintParse | deploy/smbios.py:118-145 | printed structures parse back exactly, up to and including the first type 127, cut at 4096 |
| Smbios.PrintParseUndeclared | deploy/smbios.py:127-128 | the same when the declared length is absent or longer than what is held |
| Smbios.UnterminatedIsDropped | deploy/smbios.py:73-82 | a string without its terminator is dropped and ends the table |
| Smbios.OverlongHeaderIsCut | deploy/smbios.py:133-138 | a structure whose declared header runs past the table is kept with the bytes there are, and is the last |
| Smbios.EmptyTableIff | deploy/smbios.py:127-137 | with a declared length of 0, nothing is parsed if and only if no plausible header follows |
| Smbios.EmptyTableReadsOn | deploy/smbios.py:127-137 | a concrete empty table behind which a structure is parsed |
| Wnode.ParseWnode | deploy/sensors.py:96-164 | total on any bytes: with flag 0x200 the instances are the blocks of the size at byte 60 from the offset at byte 48 on that are announced, asked for and in bounds; without it the well-formed entries of the table from byte 60 on, in order; each with the counted string its slot points to |
| Wnode.FixedIsResult | deploy/sensors.py:129-148 | the fixed-size spans are those blocks, field by field |
| Wnode.TableIsResult | deploy/sensors.py:129-158 | the table spans are those rows, byte by byte |
| Wnode.CollectFixed | deploy/sensors.py:140-148 | the fixed-size loop collects the specified spans |
| Wnode.CollectVariable | deploy/sensors.py:149-158 | the table loop collects the specified spans |
| Wnode.ParseInstanceNames | deploy/sensors.py:167-197 | one name per slot, or none when the table does not fit; every level of indirection stays inside the buffer |
| Wnode.SpansAreInBounds | deploy/sensors.py:127-158 | whatever the buffer says, all spans lie inside it and there are no more than asked for |
| Wnode.FixedIsLongestPrefix | deploy/sensors.py:144-148 | in fixed mode span i is kept if and only if it is asked for and ends in bounds |
| Wnode.KeptAreTheGoodEntries | deploy/sensors.py:154-158 | in variable mode the spans are exactly the well-formed entries, in order |
| Wnode.NamesMatchEntriesIff | deploy/sensors.py:154-158 | the k-th span kept is entry k if and only if no entry up to it was skipped |
| Wnode.NameSlotIsEntryIff | deploy/sensors.py:154-163 | instance k has the bytes of the k-th entry kept and the name in slot k, which are one position if and only if no entry up to it was skipped |
| Wnode.SkippedEntryShiftsNames | deploy/sensors.py:154-163 | a concrete buffer with a name table: its only instance is entry 1, whose slot holds one name, and carries the name in slot 0 |

## Left out

- pysnmp, pyasn1, asyncio and net-snmp: message parsing, USM, VACM and transport are the libraries'; an access function is an arbitrary predicate.
- GETBULK requests of any other shape in the deployed responder go to the library, which is not part of this model (`Bulk.HandleCappedBulk` returns None for them).
- The exception handler around the deployed slice path, which falls back to the library.
- Values of a type the size functions do not know, which are encoded for real or counted as 128 bytes.
- Encodings longer than sys.maxsize, which no Python bytes object can hold (`Wire.Encodable`, `Response.Buildable`).
- The rows added by `build_snapshot`: any list of pairs is its input here. Collectors, Win32 calls, registry, event log, service control, installer and configuration files.
- Reading an IP address or network from its text, IPv4-mapped loopback addresses, and rejection of malformed allow-lists; the reading of a source address is a parameter.
- Rounding of floating-point tokens and times; clocks are parameters. Bucket objects are map values, so aliasing of a bucket is not modelled.
- DPAPI encryption, key localization and the SHA-256 of the MachineGuid: a file that cannot be decrypted is a damaged one, and localization is an arbitrary function.
- The text of JSON, UTF-8 and UTF-16: documents are trees, text decoding is a parameter; not-a-number floats and Python's equality between nested containers are not modelled.
- UserStore.StoreFromJson: the wording of problem messages.
- UserStore.ConsumeProvisioning: documents that are not objects or hold no list, the stripping of names, and the shredding of the file afterwards.
- Interface LUIDs are taken as unbounded numbers, so there is always an unused one.
- IndexMap.GetInterfaces: hand-edited index maps with missing keys, and the name and first-seen time stored with each index; the other fields of an interface row.
- EngineRuns.PairIsNeverReused: files whose id was hand-edited to one that their own guid does not give.
- Engine.EngineService.Resolve: a MachineGuid read that raises, after which the guid "unknown" is used; failed writes over a damaged file or on a machine with earlier records.
- Crashes between the steps of a rename: renames are taken as atomic and ordered, and a flushed file as whole.
- The maximum-temperature cache, extraction of SMBIOS fields with its placeholder filter, thermal-zone conversion, and name sanitising.
