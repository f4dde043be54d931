# Event log and register policies of a kernel-guard driver

The repository is a Linux driver and a hypervisor handler that guard a kernel together. The handler is told,
resource by resource, what to do about writes to CR0, CR4 and some model-specific registers (MSRs); it judges
every such write and logs events into memory that the driver prints. This project models four parts of that
system and proves what they guarantee.

**The event log.** Each CPU has a ring of 203 record slots behind one metadata slot, in memory shared by the
handler, which appends (`handler/log.c`), and the driver, which dumps (`driver/log.c`). `LogRing` is the ring for
any size, `LogReader` the driver's walk backwards through it, alone and against a live writer. `Numerals`,
`LogText` and `LogPage` are the text of a record, of a page and of its trailer, with a reader for it. `LogDump` is
one dump as a function of memory and cursors, `LogDevice` the code itself on arrays, and `LogRuns` whole runs of
appends and dumps: the log is a bounded queue per CPU that accounts for every record. `LogLedger` shows that the
pages of a run are that account, and `LogLimit` has a run that meets the page limit exactly. `LogLive` is one dump
against a writer, `LogMachine` whole runs in which the driver goes one access to the shared memory at a time and
appends fall anywhere between; `LogCounts` says which numbers such runs count, skip and lose, `LogSkips` when they skip
nothing, `LogPages` what their pages show, and `LogAlone` that without appends the machine makes the dump of the code.
`Ledgers` has the lists of records that runs keep.

**The policy table and the register events.** `PolicyTable` is the fixed table of 35 slots as a finite map,
`Enforcement` the fold over the slots that judges a write to CR0 or CR4 and its meaning bit by bit, `Counters` what
it counts, `MsrPolicy` the scan for MSRs. `PolicyHandler` has the handler as values and as the code in place;
`PolicyEvents` and `PolicyRuns` are about one event and about whole runs: the handler refines a machine that keeps
a map, and on which a register write is one assignment. `Answers` says what an event is answered, and `Tallies` what
it counts and logs, by the policies' bits alone; `SkipRuns` what policies that skip guarantee over runs.

**Page permissions.** `PageCover` is the splitting of a memory range into blocks and pages (`handler/utils.c`).

**The driver's lock.** `DriverLock` is the per-resource item of `driver/cr0.c`, made and removed by name, that locks
once a sticky policy is in force, joined with the handler and the processor. `DriverStores` says what each store does
to the item and to the handler, and when exactly an item is locked.

Code that works in place is modelled by classes and methods (`LogDevice.Device`, `PolicyHandler.PolicyHandler`,
`PageCover.Monitor`, `DriverLock.CfgItem`), each proved equal to a function on values; the theorems are about those
functions.

## What the theorems assume

- Fewer than 2^64 records are appended per CPU. At that point the head wraps and the ring loses its order
  (`LogRing.HeadWraps`, `LogRing.OrderEnds`).
- An append is one step, and so is the reader's copy of a record: torn records and memory ordering are not modelled.
  In the runs of `LogRuns` appends fall between dumps; in those of `LogMachine` they fall anywhere.
- ALLOW gives a register its operand and REDIRECT leaves it as it was. A write of a model-specific register goes to the
  register that ECX names, with the value of EDX and EAX; the high halves of RCX, RDX and RAX are ignored.

## Where the code falls short of its purpose

Each of these has its exact condition and an input.

- A record whose line ends exactly at the page limit is printed whole but not counted, and printed again by the next
  dump: `LogPage.ShowsNextExactly`, `LogLedger.PrintedTwiceExactly`, `LogLimit.ExactlyAtTheLimit`. Exactly-once
  delivery is about counted records.
- The 32-bit count of new records can hide records from a dump: `LogDump.BacklogIsDue`, `LogRuns.MissedExactly`,
  `LogDump.TruncationHidesAFullRing`.
- A reader that the writer overtakes returns a newer record than it meant. If the record counts, the dump counts it out
  of order and it may be due again; if the page closes at it, the cursor goes past the head the dump saw, and records
  that the ring still holds are never printed. `LogLive.LiveCounts`, `LogLive.LiveCursor` and `LogLive.LiveFate` say
  exactly when and which; inputs are `LogLive.OneAppendOvertakes` and `LogLive.ClosingPassSkips`; over runs,
  `LogMachine.CountedAsMeant`, `LogCounts.FateExactly` and `LogSkips.SkippedExactly`.
- A register write whose event cannot be read is let through, sticky policy or not: `PolicyEvents.EventEnforced`,
  `PolicyEvents.MsrEventEnforced`, `PolicyRuns.StickySafety`, `PolicyRuns.StickyMsr`, `PolicyRuns.UnreadableCrSlips`,
  `PolicyRuns.UnreadableMsrSlips`.
- The handler looks a model-specific register up by all of RCX, the processor by ECX only, so a write with the high half
  of RCX not zero is let through: the same theorems, and `PolicyRuns.HighHalfSlips`.
- A lock is undone through another item of the same resource, which a different spelling or a removal makes possible:
  `DriverLock.InForceExactly`, `DriverLock.AnotherItemUnlocks`, `DriverLock.SmallLettersUnlock`.
- A range that starts inside a page may leave its last bytes out: `PageCover.CoverExactly`, `PageCover.UnalignedMisses`.

The reader's comment says -1 stands for all records; the comparison with an unsigned size makes every negative count
stand for all, and the model follows the code.

## Model

| member | source | states |
|---|---|---|
| LogRing.Layout | common/include/policy_common.h:216-223 | 204 slots of 40 bytes are as many as fit into a CPU's two pages, and 203 of them hold records |
| LogRing.AddKeepsTail | handler/log.c:137-161 | an append keeps the ring holding exactly the last n records, each in its own slot with its own contents, and all other slots unwritten; slot 0 only ever holds the head |
| LogRing.AppendedRecord | handler/log.c:146-160 | the record appended at head h has number h and its event's values in the fields of their names, stands in slot h mod n plus 1, and the head becomes h+1 |
| LogRing.EmptyHoldsNothing | driver/log.c:284-288 | the zeroed region is a ring without records |
| LogRing.OverwrittenBy | handler/log.c:149-158 | an append destroys the record a full ring behind the head and no other that the ring holds |
| LogRing.HeadWraps | handler/log.c:146-160 | behind the last 64-bit number the head is zero; the next append goes over the oldest record if and only if the ring size divides 2^64, else that record stays while slot 1 is written |
| LogRing.OrderEnds | common/include/policy_common.h:225 | the remainder of 2^64 by 203 is 198: 203 does not divide it |
| LogReader.StartIndex | driver/log.c:126-136 | both branches of the start computation land on the slot of the number `count` before the start |
| LogReader.RunFrom | driver/log.c:138-155 | from the slot of number k the loop collects exactly the records k to head-1, skips numbers below zero, and leaves by its `break` |
| LogReader.ExactWindow | driver/log.c:119-158 | called at the head with any count, positive, zero or negative, the reader returns exactly the last min(count, n, head) records in ascending order |
| LogReader.NewestNumber | common/include/policy_common.h:225 | the slot of a number k below the head has a number at most a ring behind the head, no older than k, and it is k exactly when the head is at most k+n |
| LogReader.ReaderAgainstWriter | driver/log.c:138-155 | with appends between any two passes, every pass returns the newest record of the slot it reads: same residue, no older, genuine, and the very record meant if and only if the head had not passed it by a whole ring |
| Numerals.ValueOfNumeral | driver/log.c:228-232 | a printed number, decimal or hexadecimal, has the value printed |
| Numerals.NumeralLength | driver/log.c:228-232 | a numeral has at most w digits if and only if its number is below the w-th power of the base |
| Numerals.DecimalPlace | driver/log.c:228-232 | the k-th character from the end of a decimal is the digit of 10^k |
| Numerals.HexPlace | driver/log.c:228-232 | the same in hexadecimal, with capital letters |
| LogText.LineLength | driver/log.c:228-232 | no printed record is longer than 94 characters, so its buffer never cuts one |
| LogText.LineText | driver/log.c:228-232 | a line is CPU, number and reason in decimal, then qualification, rip and gva in hexadecimal, with commas between and a newline behind |
| LogText.ScanOfPrint | driver/log.c:228-232 | printed fields are read back, whatever text follows |
| LogText.ScanOfLines | driver/log.c:224-240 | read with three decimal and three hexadecimal columns, the text of a list of records gives back the CPU, number, reason, qualification, rip and gva of each |
| LogPage.FitsUnique | driver/log.c:104-105 | the point where a page stops taking records is determined by the records |
| LogPage.BodyBounds | driver/log.c:81-108 | the text before the trailer ends at most 4 characters past the limit, and a page that does not count everything counts at least 42 records |
| LogPage.PageOfBody | driver/log.c:245-247 | text and trailer stay within 4096 characters, and the trailer within its 64-byte limit |
| LogPage.PageText | driver/log.c:224-252 | the page is the lines of the counted records, then nothing, the whole next line, or what fits of it up to character 4026 and a mark; then a line of offset, count and full flag, and EOF |
| LogPage.ShowsNextExactly | driver/log.c:88-105 | the record that fills the page, and does not count, stands on it whole if and only if its line ends exactly at the limit |
| LogPage.PageReadsBack | driver/log.c:224-252 | a reader of the page alone recovers the trailer's offset, count and full flag, and of exactly the counted records, in order, the CPU, number, reason, qualification, rip and gva |
| LogDump.PrintOne | driver/log.c:224-240 | one record more keeps the page open with everything counted, or closes it with its final text and count |
| LogDump.PendingOrder | driver/log.c:209-224 | records are printed in the order of their CPUs |
| LogDump.CursorsWhenClosed | driver/log.c:234-242 | when the page fills at a record, the cursors before that CPU are at their heads, its own is at that record, those behind it have not moved |
| LogDump.BacklogWindow | driver/log.c:213-222 | what a dump reads from a CPU for any head and cursor: the last min of the 32-bit difference and 203 records |
| LogDump.BacklogIsDue | driver/log.c:215-222 | a dump reads exactly the records due if and only if the difference is below 2^32 or its low 32 bits are at least 203 |
| LogDump.TruncationHidesAFullRing | driver/log.c:215 | 2^32 records behind, a dump reads nothing although 203 are due |
| LogLive.ReadEnds | driver/log.c:138-155 | a read with appends between its passes is over exactly when it has made as many passes as it meant |
| LogLive.LiveCursor | driver/log.c:234-237 | the cursor a live dump leaves is the number the closing pass meant, or the head if the page did not close, if and only if that pass was not overtaken; else it is past the head |
| LogLive.LiveCounts | driver/log.c:222-240 | what a live dump counts is what it meant if and only if no pass it counts was overtaken |
| LogLive.MetIsRead | driver/log.c:138-155 | a pass reads number k if and only if it comes to the slot of k when the head is past k by no more than a ring |
| LogLive.LiveFate | driver/log.c:213-240 | a record the ring still holds is counted if and only if a counted pass came to its slot when it had been appended, and due to the next dump if and only if it is not in front of the cursor left |
| LogLive.NothingSkipped | driver/log.c:234-237 | a live dump whose closing pass was not overtaken skips no record the ring holds |
| LogLive.OneAppendOvertakes | driver/log.c:138-155 | an input: one append before the first of 203 passes; the record it returns is counted and due again |
| LogLive.ClosingPassSkips | driver/log.c:234-237 | an input: two appends behind the first pass and a page that closes at the second; a record in the ring is neither counted nor due |
| LogDevice.RegionsApart | common/include/policy_common.h:227-231 | the byte ranges of different CPUs do not overlap and end inside the allocated size |
| LogDevice.WriteStaysInRegion | common/include/policy_common.h:227-231 | a write into one CPU's slot is seen in that slot of that CPU and nowhere else |
| LogDevice.Device.InitLog | driver/log.c:255-293 | the allocated memory is the empty log with all cursors at zero |
| LogDevice.Device.AddRecord | handler/log.c:137-161 | the stores of an append are the append of `LogRing` to that CPU's region, all other regions and the cursors unchanged |
| LogDevice.Device.ReadLogs | driver/log.c:119-158 | the loop on the array returns what the reader's step machine returns, and never writes past its results |
| LogDevice.Device.ReadBacklog | driver/log.c:211-222 | the cursor moves to the head, and what is read is the backlog of the old cursor; nothing when the count or the head is zero |
| LogDevice.AddMessage | driver/log.c:81-108 | the message is appended whole, or cut at the limit and marked, exactly when it meets the limit is the page full, and nothing behind the new end changes; the source's BUG_ON is its precondition |
| LogDevice.Device.PrintBacklog | driver/log.c:224-240 | the inner loop prints and counts records in order up to the page's limit and then sets the cursor to the first record not counted |
| LogDevice.Device.DumpNext | driver/log.c:209-243 | one pass of the outer loop: the cursor goes to the head, or back to the record that closed the page, and the page has that CPU's records too |
| LogDevice.Device.DumpLog | driver/log.c:178-253 | the nested loops leave exactly the page of all backlogs in CPU order, the rest of the buffer and the log memory untouched, and the cursors of one dump |
| LogRuns.VictimIsOldestDue | handler/log.c:149-158 | an append destroys an undumped record exactly when 203 are due, and then the oldest |
| LogRuns.Simulation | driver/log.c:209-243 | every append and every dump is the same step of bounded queues: enqueue, dropping the oldest of a full queue; dequeue what the count hides and what is counted, if the CPU is reached; the page shows the queues |
| LogRuns.WholeRunDelivery | driver/log.c:209-243 | after any run the counted records of a CPU are strictly ascending and genuine; every number before the first still due was counted, overwritten or passed, exactly one of them; and the counted ones are 0, 1, 2, ... without a gap if and only if none was overwritten or passed |
| LogRuns.MissedExactly | driver/log.c:215-217 | over any run nothing of a CPU is passed if and only if every dump that reached it found its count not truncated |
| LogRuns.DumpTakesPrefix | driver/log.c:224-243 | what a dump counts over all CPUs is a prefix of all that is pending, and what it leaves is the rest in order |
| LogRuns.DumpConserves | driver/log.c:213-240 | what a dump has counted and what the next dump finds are together, in order, what there was: nothing is lost or repeated between two dumps |
| LogRuns.DumpShortens | driver/log.c:224-243 | a dump leaves nothing to print or shortens the total by at least 42 |
| LogRuns.Drain | driver/log.c:209-243 | with the writer idle, five dumps per CPU count everything there is to print, each CPU's records in order, from any reachable state |
| LogLedger.PagesAreLedger | driver/log.c:224-252 | over any run the lines that a reader of the successive pages finds counted, split by CPU, show exactly the records counted, in order |
| LogLedger.PagesShowHistory | driver/log.c:224-252 | over any run, a counted line of CPU c with number k reads c, k, and the reason, qualification, rip and gva of the k-th append to c |
| LogLedger.PrintedTwiceExactly | driver/log.c:234-239 | the record that fills a page heads the next dump, and so is printed whole twice if and only if its line ends exactly at the limit |
| LogMachine.LiveDelivery | driver/log.c:209-243 | with appends at any moment of any run, every counted record is genuine, and every number the cursor has gone past is on exactly one of the lists counted, lost and skipped; which one is FateExactly |
| LogMachine.CountedAsMeant | driver/log.c:222-240 | over any run the records counted on a CPU are those meant, so strictly ascending and none twice, if and only if no counted pass was overtaken |
| LogCounts.CountedExactly | driver/log.c:213-240 | over any run a number has been counted if and only if a counted pass came to its slot when the head was past it by no more than a ring |
| LogCounts.FateExactly | driver/log.c:213-240 | over any run and for every number: counted exactly if a counted pass met it; skipped exactly if none did and the cursor went past it while the ring held it; lost exactly if none did and the cursor went past it when it had been overwritten |
| LogSkips.SkippedExactly | driver/log.c:213-237 | over any run nothing of a CPU is skipped if and only if a counted pass had met every number the cursor went past while the ring held it |
| LogSkips.CarefulSkipsNothing | driver/log.c:215-237 | a run skips nothing of a CPU if its looks find no count truncated and its pages close at no overtaken pass |
| LogPages.LivePagesAreLedger | driver/log.c:224-252 | with appends at any moment, the lines found counted on the pages, the one in progress included, show exactly the records counted |
| LogPages.LivePagesShowHistory | driver/log.c:224-252 | the same with appends at any moment |
| LogAlone.DumpAlone | driver/log.c:178-253 | without appends, the driver taken apart into its accesses makes exactly the dump: its page and its cursors |
| LogLimit.ExactlyAtTheLimit | driver/log.c:104-105 | a run of 188 appends whose lines sum to the limit: 188 records stand on the page, 187 count, and the next dump prints the last one again |
| Resources.ResIdToMask | handler/cpu_cr0.c:57-71 | the table lookup returns the bit of the id, or 0 |
| Resources.MaskIsOwnBit | handler/cpu_cr4.c:42-60 | every resource of a register has exactly one bit, found back from the bit; other ids have none |
| Answers.BitsOfRegister | common/include/policy_common.h:38-68 | each resource of CR0 or CR4 is one of the register's defined bits, later resources higher ones |
| Answers.DefinedIsResource | common/include/policy_common.h:38-68 | every defined bit is a resource |
| PolicyTable.InsertRefinesUpdate | handler/policy.c:131-173 | an insert keeps the table's invariant and is a map update, except for a new id on a full table |
| PolicyTable.DeleteRefinesRemoval | handler/policy.c:235-254 | a delete keeps the invariant, is a map removal, and its guarded countdown never meets zero |
| PolicyTable.InsertPlace | handler/policy.c:155-172 | which slot an insert writes and with what: the slot of the id, else the first free one, with an access count of zero; all others stay |
| PolicyTable.DeletePlace | handler/policy.c:241-253 | which slot a delete frees, and all others stay |
| PolicyTable.OccupiedIsSize | handler/policy.h:38-43 | the number of used slots is the size of the map |
| PolicyTable.RoomForNewId | handler/policy.h:25 | with ids in range, a new id always finds a free slot |
| Enforcement.UniqueIdsSeparateRules | handler/cpu_cr0.c:157-163 | unique ids make at most one rule govern each bit |
| Enforcement.ScanDecides | handler/cpu_cr0.c:73-104 | a bit governed by one rule gets that rule's decision, wherever the rule stands in the table |
| Enforcement.ScanEnforces | handler/cpu_cr0.c:157-163 | every one of the 64 bits is left as the policies want it: sticky value, current bit or requested bit for a changed bit with a policy, the requested bit otherwise |
| Enforcement.EnforcedUnique | handler/cpu_cr0.c:73-104 | the policies determine the enforced value |
| Enforcement.SlotOrderIrrelevant | handler/cpu_cr4.c:164-170 | tables with the same policies, in any order of slots, give the same value |
| Enforcement.JudgeEnforces | handler/cpu_cr0.c:147-180 | both answers carry out the enforced value; when the operand cannot be rewritten, if and only if it is the current or the requested value |
| Answers.EnforcedSays | handler/cpu_cr0.c:85-99 | a changed bit with a policy takes the sticky value under action 0x80, else stays under 0x02, else changes |
| Answers.EnforcedPasses | handler/cpu_cr0.c:79-104 | a bit without a policy, or that does not change, is left as requested |
| Answers.CrAnswerExactly | handler/cpu_cr0.c:118-180 | the answer is a redirect, with the operand as it was, if and only if the event is read, asks for another value and the policies want the current one; an allow carries the enforced value if it can be rewritten, else the operand |
| Counters.EventCounts | handler/cpu_cr0.c:79-101 | an event adds the number of changed bits with a policy to the outcome counters and to the access counts |
| Counters.EventLogs | handler/cpu_cr4.c:89-90 | logging is asked for exactly when a changed bit has a policy with the log action |
| Counters.HitIdsSize | handler/cpu_cr0.c:157-163 | the slots that apply are as many as the resources they are about |
| Tallies.CrTallies | handler/cpu_cr0.c:79-101 | each of the four outcome counters rises by the changed bits whose policy comes to that outcome, by its write action and sticky bit; other registers' counters stay |
| Tallies.CrLogs | handler/cpu_cr4.c:89-90 | the logger is called, once, exactly when a changed bit has a policy with action 0x01 |
| Tallies.CrAccesses | handler/cpu_cr4.c:79-104 | the access count of a slot rises by one exactly when its bit changes, and nothing else of the table moves |
| MsrPolicy.ResIdToMsr | handler/cpu_msr.c:51-65 | the table lookup returns the register of the id, or the invalid one |
| MsrPolicy.MsrInverse | handler/cpu_msr.c:42-48 | no two resources share a register |
| MsrPolicy.ScanIsLookup | handler/cpu_msr.c:165-173 | the scan that stops at the first match answers as a map lookup does, whatever the order of slots; ids without a register take no part |
| Answers.MsrRegisters | handler/cpu_msr.c:42-48 | the five resources with a register, each with its number |
| Answers.LowHalf | handler/cpu_msr.c:120-122 | the value of a write has EAX as its low half |
| Answers.HighHalf | handler/cpu_msr.c:120-122 | and EDX as its high half |
| Answers.MsrAnswerExactly | handler/cpu_msr.c:73-87 | for a register with a policy the answer is a redirect if and only if the action has 0x80 and the value is not the sticky one, or it lacks 0x80 and has 0x02 |
| Answers.MsrAnswerElse | handler/cpu_msr.c:94-173 | with no policy for the register, or an event not read, the answer is to allow |
| Tallies.MsrTallies | handler/cpu_msr.c:70-89 | the counter of the outcome, the access count of the policy's slot and the logger move, by the action's bits, and nothing else |
| Tallies.MsrOnlyCounts | handler/cpu_msr.c:94-173 | without a policy for the register only the event is counted |
| PolicyHandler.PolicyHandler.Initialize | handler/policy.c:47-77 | 35 free slots, mutable, nothing counted |
| PolicyHandler.PolicyHandler.EntryAdd | handler/policy.c:155-172 | the two scans in place are the insert: overwrite, else the first free slot, else nothing |
| PolicyHandler.PolicyHandler.EntryDel | handler/policy.c:241-253 | the scan in place is the delete |
| PolicyHandler.PolicyHandler.MsgAdd | handler/policy.c:279-298 | the entry is added whatever the monitor answers, which is asked for the ids of CR0, CR4 and MSRs; the unknown id changes nothing |
| PolicyHandler.PolicyHandler.MsgDel | handler/policy.c:300-319 | the entry is removed whatever the monitor answers; the unknown id changes nothing |
| PolicyHandler.PolicyHandler.HandleEnable | handler/policy.c:321-331 | an enable adds while mutable and changes nothing once immutable |
| PolicyHandler.PolicyHandler.HandleDisable | handler/policy.c:333-343 | a disable removes while mutable and changes nothing once immutable |
| PolicyHandler.PolicyHandler.HandleMakeImmutable | handler/policy.c:345-353 | sets the flag and nothing else |
| PolicyHandler.PolicyHandler.ApplyRule | handler/cpu_cr0.c:79-103 | the branches on log, sticky and skip are the step of the fold |
| PolicyHandler.PolicyHandler.ScanTable | handler/cpu_cr4.c:164-170 | the loop computes the fold over all slots and counts an access for exactly the slots that applied |
| PolicyHandler.PolicyHandler.JudgeEvent | handler/cpu_cr0.c:151-167 | the scan, the counters and the one call of the logger are the fold of the event |
| PolicyHandler.PolicyHandler.HandleCrEvent | handler/cpu_cr0.c:106-181 | state and answer of a whole event, early exits included |
| PolicyHandler.WhenScanned | handler/cpu_cr0.c:147-180 | state and answer of an event that is not idle come from one and the same fold |
| PolicyHandler.PolicyHandler.HandleMsrEvent | handler/cpu_msr.c:94-174 | state and response of a whole event, early exits included |
| PolicyEvents.EventEnforced | handler/cpu_cr0.c:123-180 | an event leaves the enforced value if and only if it is read and can be rewritten or redirected, or the policies have nothing against the requested value |
| PolicyEvents.EventOutcome | handler/cpu_cr0.c:118-180 | the value in the register after any event, whatever calls fail: the enforced one; the operand if it cannot be read; the current one or the operand if it cannot be rewritten |
| PolicyEvents.MsrEventEnforced | handler/cpu_msr.c:103-173 | an MSR event is answered as the policies want for the register the processor writes, if and only if it is read and the high half of RCX is zero, or they let the value through |
| PolicyEvents.StickyMsrEvent | handler/cpu_msr.c:73-80 | under a sticky policy another value gets into the register if and only if the event for it cannot be read or has the high half of RCX not zero |
| PolicyEvents.EventConservation | handler/cpu_cr0.c:118-167 | every event, read or not, adds the changed bits with a policy to its own register's outcomes and to the access counts, and calls the logger once if one of them logs, else never |
| PolicyRuns.Simulation | handler/policy.c:279-353 | every step of any interleaving of messages and register writes, whatever calls fail, is the same step of a machine with a bounded map, where a control-register write is one assignment |
| PolicyRuns.SpecDeterministic | handler/cpu_cr0.c:157-180 | that machine is deterministic: the map fixes the value of every write |
| PolicyRuns.RunRefines | handler/policy.c:279-353 | over any run that machine can end exactly where the handler and the processor end |
| PolicyRuns.TableInvariant | handler/policy.c:131-173 | after any run no two used slots share an id and the entry count is the number of used slots and the size of the map |
| PolicyRuns.Freeze | handler/policy.c:321-353 | once immutable, every continuation leaves every id and policy and the entry count |
| PolicyRuns.EnableTakesEffect | handler/policy.c:155-172 | with ids in range the table never fills: in every run an enable met while mutable is in force afterwards |
| PolicyRuns.KeptExactly | handler/policy.c:321-343 | a policy stays in force throughout a run if and only if every message about its resource comes after the freeze or says the same again |
| PolicyRuns.KeptIsPinned | handler/policy.c:321-343 | a sticky policy that stays in force pins its value throughout |
| PolicyRuns.StickySafety | handler/cpu_cr0.c:85-93 | while a resource has a sticky policy for a value, its bit changes at most once over any run, to that value, and stays there, if and only if no write against it is unreadable, or not rewritable when the policies do not want the current value |
| PolicyRuns.StickyMsr | handler/cpu_msr.c:73-80 | while a sticky policy is kept, its register changes at most once over any run, to the sticky value, and stays there, if and only if no event with another new value is unreadable or has the high half of RCX not zero |
| SkipRuns.SkipSafety | handler/cpu_cr0.c:94-96 | while a resource has a skip policy its bit never changes over any run, if and only if no write slips |
| SkipRuns.MsrMoves | handler/cpu_msr.c:73-87 | what a write leaves in a register with a policy: the old content exactly when it is told and the policy redirects it |
| SkipRuns.SkipMsr | handler/cpu_msr.c:81-83 | while a skip policy is kept its register never changes over any run, if and only if no write of another value is unreadable or has the high half of RCX not zero |
| PolicyRuns.UnreadableCrSlips | handler/cpu_cr0.c:128-131 | an input: protected mode under a sticky policy is left by a write whose CR0 cannot be read |
| PolicyRuns.UnreadableMsrSlips | handler/cpu_msr.c:108-110 | an input: EFER under a sticky policy gets zero by a write whose RAX cannot be read |
| PolicyRuns.HighHalfSlips | handler/cpu_msr.c:125-158 | an input: EFER under a sticky policy gets zero by a write with bit 32 of RCX set, all read |
| PageCover.AndRoundsDown | handler/handler.h:38 | masking with all ones above bit k rounds down to a multiple of 2^k |
| PageCover.PagesIsCeiling | handler/utils.c:128 | mask and shift give the integer ceiling if and only if the addition does not wrap in 32 bits |
| PageCover.Monitor.MonitorMemory | handler/utils.c:116-193 | all pages of a block in order, each with virtual address, translation and permission, or none; fails exactly for too many pages or a failing call |
| PageCover.Monitor.MonitorMemoryEx | handler/utils.c:195-214 | a success adds one item per page of the range, in order: item j has the virtual address j pages on from the start rounded down, its translation and the permission; a failure adds exactly those of the whole blocks before the failing one; an empty range fails |
| PageCover.RangeDistinct | handler/utils.c:159-174 | no page of a range is updated twice, and the page behind it is none of them |
| PageCover.CoverExactly | handler/utils.c:124-128 | the items told hold the page of every byte of the range, past the last address too, if and only if the bytes in front of an unaligned start leave room; an aligned start always does; no page is told twice |
| PageCover.UnalignedMisses | handler/utils.c:125-128 | an input: two bytes from the last one of a page on, told as one item that does not hold the second |
| DriverLock.ValidCr0Attr | driver/cr0.c:74-85 | the loop finds the first row with the name, letters of either case alike, or none |
| DriverStores.LettersOfTwoCases | driver/cr0.c:79-80 | letters agree exactly when they are the same or the two cases of one |
| DriverLock.TablesAgree | driver/cr0.c:19-34 | the driver's table has the resources of CR0 in order, each with the bit the handler's table gives it |
| DriverLock.MakeItem | driver/cr0.c:212-234 | a zeroed item for a name of the table, nothing for any other |
| DriverStores.AttributeStores | driver/cr0.c:133-165 | stores of write (cut to a byte) and sticky_value change that field and no other, and are refused for a locked item or a text that is no number |
| DriverLock.CfgItem.SetPolicy | driver/cr0.c:93-131 | one enable or disable message with the item's policy, unless the name has no row; succeeds as the call says |
| DriverLock.CfgItem.SetEnable | driver/cr0.c:167-192 | item and handler after the store, whatever the call answers and the handler does: a call said to succeed with the sticky action locks the item |
| DriverStores.EnableStore | driver/cr0.c:167-192 | the store locks the item if and only if the text is a number, the call succeeded and the write action has 0x80, or it was locked; the enable flag becomes whether the number is not zero exactly on success for an unlocked item |
| DriverStores.EnableReaches | driver/cr0.c:93-131 | what the store does to the handler's map: the item's write action and sticky value are put under its resource, or the resource is taken out, exactly when the message is sent, acted on and not too late |
| DriverStores.LockedExactlySince | driver/cr0.c:167-192 | over any run from no items, an item is locked if and only if a successful store found 0x80 in its write action and it has not been removed since |
| DriverLock.LockedForGood | driver/cr0.c:133-192 | a locked item stays as it is over any run if and only if it is not removed |
| DriverLock.LockTakesEffect | driver/cr0.c:93-131 | a store that locks, met while the handler is mutable, puts the sticky policy in force |
| DriverLock.LockedExactly | driver/cr0.c:182-189 | after a locking store the handler holds the policy if and only if a nonzero number was acted on by an open table, or it was there and the message was not acted on or came too late |
| DriverLock.InForceExactly | driver/cr0.c:167-192 | a policy of CR0 stays in force over any run if and only if no unlocked item of its resource replaces it while the table is open |
| DriverLock.SoleIsEnough | driver/cr0.c:167-192 | a locked item that is not removed, and whose resource no other item speaks for, keeps its policy in force |
| DriverLock.EndToEndLock | driver/cr0.c:167-192 | in any run from no items and an empty handler, once a store locks a sticky policy: the item stays exactly if it is not removed; the policy stays in force exactly if no unlocked item replaces it, as when the item is alone; and while it is in force the bit changes at most once, to the sticky value, exactly if no write slips |
| DriverLock.AnotherItemUnlocks | driver/cr0.c:212-234 | while the table is open, a new item of the same resource with a zero stored takes the policy away |
| DriverLock.SmallLettersUnlock | driver/cr0.c:79-80 | an input: PE is locked, and an item named pe undoes it |

## Left out

- LogRing.AddKeepsTail: stops short of the 2^64th record of a CPU; what happens there is HeadWraps.
- LogRuns.WholeRunDelivery: has appends between dumps only; with appends at any moment it is LiveDelivery.
- PageCover.Monitor.MonitorMemoryEx: takes the hypervisor's limit of pages per call as a parameter whose block size and round-up fit 32 bits; the header with its value is not part of this model.
- Torn records and memory ordering: the code has no barriers, so an append is one step here.
- Allocation failures in the log (`driver/log.c`), which make a dump print nothing and the log not start, and a log of 4 GB or more.
- The failing allocation in `policy_initialize`, and the guards against a table or a log memory that is not there: the model starts from both.
- The CPU index of an append, which `log_event` takes from the event without a check: the model has it below the number of CPUs.
- Writes of a control register other than from a register operand, and more than one processor: each processor has registers of its own, and the theorems are about one of them.
- The operand register of a rewritten write, which keeps the rewritten value.
- The filter on exit reasons in `log_event`, `start_log` and `stop_log` with their address translation: branches around `log_buffer_add_record` and `util_monitor_memory_ex`, which are modelled.
- Wrap-around of the event counters and of the 32-bit access counts, which are unbounded here.
- Fields never consulted: the `flags` of an entry, the version and signature of the table.
- `policy_sanity_check` accepts everything, so ids out of range may take slots; they are in the model and govern nothing. So are the ids of STAR and LSTAR, which have no register.
- Separate code for CR0 and CR4: the two handlers differ in registers and bits only and are one model with the register as a parameter.
- A failing monitor request is answered but does not undo the table's change, in the code as in the model; what the hypervisor then intercepts is not modelled, every register write is taken to reach the handler.
- `driver/cr4.c` and `driver/msr.c`: the same lock state machine for other registers.
- Message transport, configfs and sysctl registration, module loading, debugging code and the policy scripts: no logic of their own.
