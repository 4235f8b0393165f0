# Verified models of OpenSBI and Bao

This project models the hardest parts of a RISC-V firmware and hypervisor stack,
OpenSBI in M-mode below the Bao partitioning hypervisor, and proves what those
parts promise. `dafny verify dfyconfig.toml` checks all of it.

Concurrent protocols are state machines over any number of harts or CPUs: one step
is one atomic instruction, one lock-protected section or one device write, and
theorems hold in every state of every run (`IsRun`). Code that updates memory in
place is imperative Dafny over arrays and fields, proved against functions on
values. Machine words are natural numbers with wrap-around written out.

| files | what they model |
|---|---|
| `Basics`, `Bits` | 64-bit words, powers of two, alignment, remainders |
| `Fifo`, `Tlb`, `TlbQueue` | the ring FIFO, local flushes, merging of flush requests |
| `Shootdown`, `ShootdownAcks`, `ShootdownCoverage`, `ShootdownWakeup`, `ShootdownProgress`, `ShootdownEvents` | the remote TLB shootdown protocol with its IPIs (chapter 8 of the RISC-V SBI Specification v1.0) |
| `PageTable`, `AddressSpace` | Sv39 and Sv39x4 page tables, `mem_map`, `mem_expand_pte`, `mem_translate` |
| `Domain`, `RegionInit`, `RegionSort`, `ConflictCheck`, `Sanitize`, `SanitizeExamples`, `RootDomain` | domain memory regions: construction, sorting, merging, first-match decisions |
| `Pmp`, `PmpTable` | PMP entry encoding, the table a hart is given, and the hardware's reading of it |
| `Boot`, `BootSafety`, `BootWakeup`, `BootProgress` | cold boot and the HSM state machine (chapter 9 of the RISC-V SBI Specification v1.0) |
| `TicketLock`, `TicketLockProgress` | the 16-bit ticket spinlock |
| `VmAssign`, `VmAssignSafety` | Bao's barrier and its two-phase assignment of CPUs to virtual machines |
| `Bitmap`, `PagePool` | Bao's bitmap searches and physical page allocator |
| `Vplic`, `VplicDevice` | Bao's virtual PLIC |
| `Bitwords`, `Bitops` | OpenSBI's word-at-a-time bit searches |

## Properties that do not hold, and when they do

- A flush request can lose its coverage when it is merged. `Tlb.MergeSatisfiesBothIff`
  says exactly when both requests survive, for all ranges that do not wrap around. The
  three ways to fail each have an input: the `(0, 0)` encoding of "everything"
  (`Tlb.ZeroEncodingLosesCoverage`), a range that is not page-aligned
  (`Tlb.UnalignedMergeLosesCoverage`), and a range that ends at 2^64, whose end is
  computed as 0 (`Tlb.LastPageLosesCoverage`). A single request reaches its own last
  page under the condition of `Tlb.LocalFlushReachesOwnRangeIff`.
- `sbi_domain_memregion_init` makes the least block around a range if and only if that
  block ends below 2^64 or is all of memory; for a block at the top of memory it makes
  all of memory: `RegionInit.MemregionIsLeastIff`, `RegionInit.TopPageTakesAllMemory`.
- `is_region_subset` compares with the wrong end and holds exactly for equal bases:
  `Domain.SubsetIffSameBase`, `Domain.NestedRegionsPass`.
- `is_region_valid` accepts a whole-memory region at any base, against the header's
  comment: `Domain.ValidIffAligned`, `Domain.WholeMemoryRegionMayStraddle`.
- The conflict check inside the sort does not compare all pairs, and sanitize_domain
  accepts a table with a conflict: `SanitizeExamples.ConflictGoesUnseen`. Where no two
  regions share order and base, it accepts one if and only if every conflicting pair is
  hidden by a third region, listed before the later of the two and sorted strictly
  between them: `ConflictCheck.SaneIffConflictsHidden`, and for the whole verdict
  `Sanitize.SanitizedIff`. In any table, hidden pairs are never seen, and a pair that is
  listed in order always is: `Sanitize.SanitizedHalves`. A sorted table is judged
  exactly: `Sanitize.SanitizedSorted`.
- Merging regions can change decisions once two regions share order and base, even if
  all of them differ at first: `SanitizeExamples.EqualKeysChangeDecisions`. It cannot
  when, of any two regions with the same base, the smaller has no region of its flags at
  the base of its other half; different bases are a special case:
  `Domain.SeparatedSuffices`, `Domain.DistinctBasesAreSeparated`.
- `mem_map` reports a mapped page only where a run of entries begins. A range under one
  last-level table, too short for a superpage, is refused if and only if its first page
  is mapped; its later pages are overwritten without notice. For every range, a report
  needs a mapped page, and a mapped first page is always reported:
  `AddressSpace.Space.Map`.
- Adding a region of order zero to the root domain takes a slot, and from then on no
  added region has any effect: `RootDomain.Root.AddMemregion`.
- An aligned allocation from a pool is aligned in physical memory if and only if twice
  the pool's first page number is a multiple of the request:
  `PagePool.AlignedResult`. The aligned search finds every free aligned run of one or
  two pages, and can miss one of three pages or more:
  `PagePool.AlignedCompleteUpToTwo`, `PagePool.AlignedSearchMisses`. It never misses one
  that starts right after a page in use: `PagePool.AlignedFound`.
- Reserving pages keeps the free count right if and only if all of them were free:
  `PagePool.Pool.Reserve`.
- The virtual PLIC's search reads one id past its tables. Its answer is right if and
  only if what it reads there does not beat every eligible interrupt and the threshold:
  `VplicDevice.Device.NextPending`. It never does where context 0 is not an S-mode
  context (`VplicDevice.Device.NeverOverridden`), as on all platforms here, whose even
  contexts are M-mode ones. On a platform that overrides the weak function
  `plic_plat_id_to_cntxt` so that context 0 is an S-mode context, it can:
  `VplicDevice.SecondClaimIsSpurious`.
- Completing an interrupt changes nothing but its own active bit if and only if the id
  is below 1024 or the bit at that distance is clear already; a larger id written by the
  guest clears a bit of the priorities, enables or thresholds:
  `VplicDevice.Device.Complete`.
- A virtual machine that asks for no CPU can still be given one, which it must prefer:
  `VmAssignSafety.MachineWithoutDemandGetsCpu`, `VmAssignSafety.MachinesAreWellFormed`.
- Regions that do not fit a hart's PMP, or come after its entries are used up, are
  skipped. The hardware then decides as the domain at the addresses whose first matching
  region was written, and everywhere as the regions written do:
  `PmpTable.ConfiguredTableEnforcesDomain`, `PmpTable.ConfiguredTableEnforcesProgrammed`.

## Model

| member | source | states |
|---|---|---|
| `Fifo.Ring.constructor` | opensbi/lib/sbi/sbi_fifo.c:15-25 | a new ring is valid and empty |
| `Fifo.Ring.IsFull` | opensbi/lib/sbi/sbi_fifo.c:27-30 | full exactly when the contents have as many entries as the queue |
| `Fifo.Ring.Enqueue` | opensbi/lib/sbi/sbi_fifo.c:157-173 | appends at the end, or fails and changes nothing when full |
| `Fifo.Ring.Dequeue` | opensbi/lib/sbi/sbi_fifo.c:175-198 | takes the oldest entry off, or fails and changes nothing when empty |
| `Fifo.Ring.InplaceUpdate` | opensbi/lib/sbi/sbi_fifo.c:124-155 | the contents become those of the update on a plain list, across the ring's wrap |
| `Fifo.InplaceUpdatedChangesOne` | opensbi/lib/sbi/sbi_fifo.c:124-155 | the update stops at the first entry that the callback does not leave unchanged, and no other entry changes |
| `Tlb.LocalFlush` | opensbi/lib/sbi/sbi_tlb.c:36-191 | the fences issued drop a cached translation exactly when the request's flush covers it, for all seven local flush functions |
| `Tlb.LocalFlushReachesOwnRangeIff` | opensbi/lib/sbi/sbi_tlb.c:36-184 | a local flush reaches every page of its own byte range if and only if the stepping from an unaligned start does not stop short of the last page |
| `Tlb.ContainsSatisfies` | opensbi/lib/sbi/sbi_tlb.c:79-98 | an entry whose range contains a request flushes everything the request asks for |
| `Tlb.UpgradedAsksMore` | opensbi/lib/sbi/sbi_tlb.c:350-358 | the upgrade to flush-all asks for at least as much |
| `Tlb.MergeKeepsBoth` | opensbi/lib/sbi/sbi_tlb.c:274-339 | merging keeps everything that either page-aligned entry contained, and adds up the source masks |
| `Tlb.MergeSatisfiesBothIff` | opensbi/lib/sbi/sbi_tlb.c:274-339 | for all ranges that do not wrap around: a merged entry satisfies both requests if and only if the kept range is for everything, or its steps reach its own last page and it includes the last page of memory when the dropped one does |
| `Tlb.ZeroEncodingLosesCoverage` | opensbi/lib/sbi/sbi_tlb.c:284-294 | a request that loses its coverage in a merge |
| `Tlb.UnalignedMergeLosesCoverage` | opensbi/lib/sbi/sbi_tlb.c:284-294 | an unaligned merge that loses a page |
| `Tlb.LastPageLosesCoverage` | opensbi/lib/sbi/sbi_tlb.c:284-294 | a page-aligned request for the last page of memory that is swallowed by one for the page before it |
| `TlbQueue.QueueRequest` | opensbi/lib/sbi/sbi_tlb.c:371-376 | a request ends up merged into the first mergeable entry, appended, or refused when the queue is full |
| `TlbQueue.Process` | opensbi/lib/sbi/sbi_tlb.c:248-256 | flushes all queued entries, oldest first, and empties the queue |
| `TlbQueue.ProcessCount` | opensbi/lib/sbi/sbi_tlb.c:232-246 | flushes up to two entries, oldest first |
| `ShootdownAcks.NextKeepsAckInv` | opensbi/lib/sbi/sbi_tlb.c:214-272 | every step of every hart conserves the acknowledgements |
| `ShootdownAcks.ExactlyOneAck` | opensbi/lib/sbi/sbi_tlb.c:214-272 | while s waits on r, its acknowledgement is in exactly one place: one entry of r's FIFO, r's hands, or s's sync word |
| `ShootdownAcks.NoStrayAck` | opensbi/lib/sbi/sbi_tlb.c:214-272 | when s does not wait, no acknowledgement for it is anywhere |
| `ShootdownAcks.AckNeverSpins` | opensbi/lib/sbi/sbi_tlb.c:219-229 | the acknowledging exchange never finds the sync word set |
| `ShootdownAcks.BusyHartsCanMove` | opensbi/lib/sbi/sbi_tlb.c:341-391 | every hart that is not idle has a target that exists and a step to take |
| `ShootdownProgress.StepIsLighter` | opensbi/lib/sbi/sbi_tlb.c:214-272 | every step of a busy hart brings down the work left over all harts, unless it finds a full queue or an unset sync word |
| `ShootdownProgress.StuckHartHasInterrupt` | opensbi/lib/sbi/sbi_tlb.c:258-272 | when all busy harts wait in vain with empty queues, a hart that one of them waits for has its interrupt pending |
| `ShootdownProgress.NoDeadlock` | opensbi/lib/sbi/sbi_tlb.c:341-391 | every run can go on, without new requests, until all harts are idle with no interrupt pending, whatever full queues and mutual waiting it has reached |
| `ShootdownCoverage.NextKeepsCoverInv` | opensbi/lib/sbi/sbi_tlb.c:341-391 | every step keeps what is promised about queued, taken-off and acknowledged requests |
| `ShootdownCoverage.SyncedTargetHasFlushed` | opensbi/lib/sbi/sbi_tlb.c:258-272 | when the wait for a target ends, the target has since the request run a local flush that covers all of it |
| `ShootdownCoverage.RemoteFenceCompletes` | opensbi/lib/sbi/sbi_ipi.c:83-114 | for every request in the schedule: when the caller is idle again for the first time, every hart of the request's mask has since the request run a local flush that does all that was asked, whatever merges, upgrades and full queues happened |
| `ShootdownProgress.FenceCanComplete` | opensbi/lib/sbi/sbi_ipi.c:83-114 | a run that has just requested a fence can go on, without new requests, until the caller returns with all targets flushed |
| `ShootdownWakeup.NextKeepsWakeInv` | opensbi/lib/sbi/sbi_ipi.c:34-76 | every step keeps set events and queued requests backed by an interrupt, a sender or the handler |
| `ShootdownWakeup.NoEventLost` | opensbi/lib/sbi/sbi_ipi.c:181-209 | a set event bit without a sender about to raise the interrupt finds the interrupt pending or the hart about to exchange the word |
| `ShootdownEvents.EventIsHandled` | opensbi/lib/sbi/sbi_ipi.c:34-76 | an event sent at any step of a run has been handled by its receiver, in a later step, whenever all harts are idle with no interrupt pending |
| `ShootdownEvents.EventCanBeHandled` | opensbi/lib/sbi/sbi_ipi.c:181-209 | every run in which an event was sent can go on, without new requests, to a point where its receiver has handled it |
| `ShootdownWakeup.NoWaiterForgotten` | opensbi/lib/sbi/sbi_ipi.c:34-76 | a queued request is always backed by the target's handler, its interrupt, or a sender about to raise it |
| `PageTable.ResidueDecides` | bao-hypervisor/src/core/inc/page_table.h:60-65 | indices and page offsets of any 64-bit address are those of its residue modulo the root table's span |
| `PageTable.LookupAlias` | bao-hypervisor/src/arch/riscv/mem.c:56-78 | addresses with the same residue are translated alike |
| `PageTable.IndexSelects` | bao-hypervisor/src/core/inc/page_table.h:60-65 | the index picks the entry whose part of the address space contains the address |
| `PageTable.DescendCovers` | bao-hypervisor/src/arch/riscv/page_table.c:43-56 | the walk meets only tables that cover the address, and continuing from any of them gives the same translation |
| `PageTable.WriteLeafEffect` | bao-hypervisor/src/core/mem.c:651 | writing a leaf maps exactly the entry's part and changes no other translation |
| `PageTable.GraftEffect` | bao-hypervisor/src/core/mem.c:299-311 | hanging a table below an entry lets its entries decide exactly that part |
| `AddressSpace.FindSection` | bao-hypervisor/src/core/mem.c:278-288 | the first section that contains the address |
| `AddressSpace.Space.GetPte` | bao-hypervisor/src/arch/riscv/page_table.c:43-56 | the entry that decides the address at a level, if the tables down to it exist |
| `AddressSpace.Space.Translate` | bao-hypervisor/src/arch/riscv/mem.c:56-78 | the physical address that the page walk gives, at whatever level it ends |
| `AddressSpace.Space.AllocPt` | bao-hypervisor/src/core/mem.c:299-311 | a fresh empty table below an entry, or no change when no page can be had |
| `AddressSpace.EmptyGraftSame` | bao-hypervisor/src/core/mem.c:620-621 | adding an empty table below an invalid entry changes no translation |
| `AddressSpace.Space.FindSlot` | bao-hypervisor/src/core/mem.c:613-626 | the level search changes no translation; it ends at an invalid entry for the address if and only if the address is not mapped, at the level of the largest page that fits there, unless a table was in place for that already |
| `AddressSpace.Space.FillEntries` | bao-hypervisor/src/core/mem.c:628-657 | the inner loop extends the mapping by whole pages of one level, over whatever was mapped there, and to the end of the range when that lies under one last-level table |
| `AddressSpace.Space.Map` | bao-hypervisor/src/core/mem.c:573-670 | after a successful map of a range anywhere in the 64-bit address space, every byte of it translates to base plus offset, whatever page sizes were used and whatever was mapped before; no translation changes but those that the walk cannot tell from the range; refused exactly when no section holds both its first and its last byte without an earlier section holding one of them; stopped only at a page that was mapped, with the pages before it mapped and the rest as before; stopped at once when the first page was mapped, and only then for a range under one last-level table |
| `AddressSpace.InOneSectionIff` | bao-hypervisor/src/core/mem.c:580-583 | the section test in terms of the sections' bounds |
| `AddressSpace.UsualRangesFit` | bao-hypervisor/src/arch/riscv/inc/arch/bao.h:37-40 | ranges of the hypervisor's half of the address space, and of a guest's space, never run over the end of a span |
| `AddressSpace.CanonicalOutside` | bao-hypervisor/src/arch/riscv/page_table.c:31-40 | a canonical address outside a canonical range is told from it by the walk, so its translation stays |
| `AddressSpace.Space.ExpandPte` | bao-hypervisor/src/core/mem.c:323-386 | splitting a superpage keeps every physical translation, inside and outside; in memory only the one entry changes and a table of replicas is added, and nothing changes when there is nothing to split |
| `AddressSpace.SplitSame` | bao-hypervisor/src/core/mem.c:365-381 | a table of replicas translates every address as the superpage did |
| `Domain.ValidIffAligned` | opensbi/lib/sbi/sbi_domain.c:144-153 | the validity check agrees with the documented alignment except for a whole-memory region not at 0 |
| `Domain.SubsetIffSameBase` | opensbi/lib/sbi/sbi_domain.c:156-171 | the subset check holds exactly for equal bases (and order below the word size) |
| `Domain.ConflictIffSameBase` | opensbi/lib/sbi/sbi_domain.c:174-182 | two regions conflict exactly when base and flags agree and not both span all memory |
| `Domain.NestedRegionsPass` | opensbi/lib/sbi/sbi_domain.c:156-182 | a nested pair that the conflict check accepts |
| `Domain.Laminar` | opensbi/lib/sbi/sbi_domain.c:144-153 | of two aligned regions that share an address, the smaller lies inside the larger |
| `Domain.FirstMatchIsSmallest` | opensbi/lib/sbi/sbi_domain.c:104-141 | in a sorted list the first match lies inside every match, for every mode |
| `Domain.WholeMemoryRegionMayStraddle` | opensbi/lib/sbi/sbi_domain.c:144-153 | two accepted regions that overlap without nesting |
| `Domain.MergeableIff` | opensbi/lib/sbi/sbi_domain.c:502-506 | sorted neighbours merge if and only if they are the two halves of an aligned region and have the same flags |
| `Domain.MergeCoversBoth` | opensbi/lib/sbi/sbi_domain.c:502-506 | a merged region is aligned and covers exactly its two halves |
| `Domain.MergePassKeepsDecisions` | opensbi/lib/sbi/sbi_domain.c:497-515 | one pass of the merge loop over a sorted list changes no decision |
| `Domain.MergePassFirstIsLeast` | opensbi/lib/sbi/sbi_domain.c:497-515 | after a pass the first match is still of least order, when no two keys were equal |
| `Domain.SortKeepsAnswer` | opensbi/lib/sbi/sbi_domain.c:251-274 | sorting such a list with different keys keeps which flags answer |
| `Domain.RoundsKeepDecisions` | opensbi/lib/sbi/sbi_domain.c:485-516 | all rounds together keep every decision of every mode, if no two regions ever share order and base |
| `Domain.SeparatedSuffices` | opensbi/lib/sbi/sbi_domain.c:485-516 | if no two regions of the first table share order and base, and the smaller of two with the same base has no partner to merge with, no two ever come to share order and base in any round |
| `Domain.DistinctBasesAreSeparated` | opensbi/lib/sbi/sbi_domain.c:485-516 | regions with different bases meet that condition |
| `RegionInit.Log2Roundup` | opensbi/lib/sbi/sbi_math.c:12-23 | the least order whose power of two is not below the size |
| `RegionInit.MemregionInit` | opensbi/lib/sbi/sbi_domain.c:75-102 | the loop, with sums of machine words, computes the block of `RegionInit.Memregion` |
| `RegionInit.BlockHoldsRange` | opensbi/lib/sbi/sbi_domain.c:82-96 | that block is aligned and holds the first and the last address of the range |
| `RegionInit.MemregionIsLeastIff` | opensbi/lib/sbi/sbi_domain.c:82-96 | for a range that does not wrap around it is the least such block if and only if that one ends below 2^64 or is all of memory; otherwise it is all of memory |
| `RegionInit.LeastExists` | opensbi/lib/sbi/sbi_domain.c:82-96 | every range has a least aligned block that holds it |
| `RegionInit.TopPageTakesAllMemory` | opensbi/lib/sbi/sbi_domain.c:85-88 | the last page of memory is a block of its own, and the region made for it is all of memory |
| `RootDomain.Root.CheckAddr` | opensbi/lib/sbi/sbi_domain.c:104-141 | for aligned regions: allowed if and only if the first region that holds the address and is marked for the mode agrees on MMIO and grants all that is asked for, or there is none and the mode is M |
| `Domain.AllowedIff` | opensbi/lib/sbi/sbi_domain.c:104-141 | the same for the decision function that all other results speak of |
| `Domain.SmallestAnswers` | opensbi/lib/sbi/sbi_domain.c:104-141 | in a sorted table the smallest region that matches decides, for every mode |
| `RegionSort.SortKeeps` | opensbi/lib/sbi/sbi_domain.c:251-274 | the exchange sort leaves a permutation that is sorted by order and base, or that has a conflict when it reports one |
| `RegionSort.SortSorted` | opensbi/lib/sbi/sbi_domain.c:251-274 | on a sorted list nothing moves, and the sort succeeds exactly when no two regions conflict |
| `ConflictCheck.SaneIffConflictsHidden` | opensbi/lib/sbi/sbi_domain.c:251-274 | when no two regions share order and base, the sort finds no conflict if and only if each conflicting pair has a region listed before the later one whose place is strictly between theirs |
| `ConflictCheck.HiddenConflictsPass` | opensbi/lib/sbi/sbi_domain.c:251-274 | in any list, pairs hidden in that way are never seen |
| `ConflictCheck.OrderedConflictsAreSeen` | opensbi/lib/sbi/sbi_domain.c:251-274 | in any list, a region in conflict with a later one that does not belong before it is always seen |
| `RegionSort.SortsTo` | opensbi/lib/sbi/sbi_domain.c:251-274 | regions that nowhere share base and flags, nor order and base, are brought into the one sorted order |
| `RootDomain.Root.SortRegions` | opensbi/lib/sbi/sbi_domain.c:251-274 | the loops in place compute the exchange sort on lists |
| `RootDomain.Root.SanitizeRegions` | opensbi/lib/sbi/sbi_domain.c:198-304 | table and verdict are those of `Sanitize.Sanitized`, check by check in the source's order |
| `Sanitize.SanitizedKeeps` | opensbi/lib/sbi/sbi_domain.c:198-304 | whatever the verdict, the regions are only permuted; a sane table is valid, sorted, holds the firmware region and lets the next stage execute |
| `Sanitize.SanitizedSorted` | opensbi/lib/sbi/sbi_domain.c:198-304 | a sorted table is left as it is, and is sane if and only if everything checked for holds, conflicts included |
| `Sanitize.SanitizedIff` | opensbi/lib/sbi/sbi_domain.c:198-304 | a table in which no two regions share order and base is sane if and only if everything checked for holds of its sorted order and each conflict is hidden; it is reported as conflicting if and only if the earlier checks pass and some conflict is not hidden |
| `Sanitize.SanitizedHalves` | opensbi/lib/sbi/sbi_domain.c:198-304 | in any table a hidden conflict is never reported, and one listed in order always leads to a refusal |
| `Sanitize.SettlingSettles` | opensbi/lib/sbi/sbi_domain.c:485-516 | when the loop ends well, it has gone by rounds of sorting and merging to a table without anything to merge |
| `SanitizeExamples.ConflictGoesUnseen` | opensbi/lib/sbi/sbi_domain.c:251-274 | a table with firmware region and a conflict that sanitize_domain finds sane |
| `SanitizeExamples.EqualKeysChangeDecisions` | opensbi/lib/sbi/sbi_domain.c:485-516 | a settled root table with firmware region, and a region whose addition succeeds and opens a closed address |
| `RootDomain.Root.MergeRegions` | opensbi/lib/sbi/sbi_domain.c:496-515 | the merge loop with its copying computes one merging pass |
| `RootDomain.Root.Settle` | opensbi/lib/sbi/sbi_domain.c:485-516 | the loop computes `Sanitize.Settling` |
| `RootDomain.Root.AddMemregion` | opensbi/lib/sbi/sbi_domain.c:459-519 | refused exactly when closed, full or in conflict; otherwise the table settles with the new region behind the old ones, or without it when it or an earlier one has order zero; when added, no two neighbours are halves of one region, and for aligned, separated regions every access is decided as by the sorted, unmerged table: by the new region's flags where it is the smallest, and as before outside it |
| `Sanitize.SettledKeepsDecisions` | opensbi/lib/sbi/sbi_domain.c:485-516 | the final table decides as the unmerged sorted one if no two regions ever share order and base, and separated regions never do |
| `Sanitize.SettledWithNew` | opensbi/lib/sbi/sbi_domain.c:459-519 | what settling a table with a new region does to every decision, inside and outside the region |
| `Sanitize.SettlesAtOnce` | opensbi/lib/sbi/sbi_domain.c:485-516 | a table that passes the checks and whose sorted order holds nothing to merge settles as that order, with success |
| `Sanitize.NothingMergesIff` | opensbi/lib/sbi/sbi_domain.c:497-515 | a pass changes nothing if and only if no two neighbours are halves of one region |
| `Pmp.SetByteAt` | opensbi/lib/sbi/riscv_asm.c:271-273 | replacing one configuration byte leaves the other seven of the register |
| `Pmp.RoundTrip` | opensbi/lib/sbi/riscv_asm.c:245-346 | decoding an encoded entry gives back length, R, W, X and L, and the address if and only if it was aligned |
| `PmpTable.Ctz` | opensbi/lib/sbi/riscv_asm.c:230-243 | the number of low zero bits, or the word size for zero |
| `PmpTable.Registers.Set` | opensbi/lib/sbi/riscv_asm.c:245-293 | writes exactly one entry of the table, or refuses a bad index or length |
| `PmpTable.Registers.Get` | opensbi/lib/sbi/riscv_asm.c:295-346 | decodes one entry |
| `PmpTable.RegionEntryMatches` | opensbi/lib/sbi/sbi_hart.c:232-234 | the hardware matches a region's entry exactly at the region's addresses |
| `PmpTable.RegionEntryPermissions` | opensbi/lib/sbi/sbi_hart.c:222-230 | the entry carries the region's permissions and lock bit |
| `PmpTable.Registers.Configure` | opensbi/lib/sbi/sbi_hart.c:203-243 | writes the regions that fit, in order, as far as there are entries, and nothing else; from entries that are off, the hardware then allows S-mode and U-mode accesses exactly when check_addr does, wherever the first region is no smaller than the granularity, within the address bits, and has fewer such regions before it than there are entries |
| `PmpTable.FitsIff` | opensbi/lib/sbi/sbi_hart.c:232-234 | a region fits if and only if the granularity is at most its size and its address is within the address bits |
| `PmpTable.ConfigureEnforces` | opensbi/lib/sbi/sbi_hart.c:203-243 | the hardware's agreement with check_addr, in terms of granularity, address bits and entry count |
| `PmpTable.ConfiguredTableEnforcesProgrammed` | opensbi/lib/sbi/sbi_hart.c:203-243 | whatever regions are skipped, the hardware allows an S-mode or U-mode access exactly when check_addr does on the regions written |
| `PmpTable.ProgrammedAnswer` | opensbi/lib/sbi/sbi_hart.c:203-243 | skipping regions makes no difference at an address whose first matching region fits and finds an entry left |
| `PmpTable.ConfiguredTableEnforcesDomain` | opensbi/lib/sbi/sbi_hart.c:203-243 | at such an address the hardware allows an S-mode or U-mode access exactly when check_addr does on the whole domain |
| `PmpTable.AllProgrammed` | opensbi/lib/sbi/sbi_hart.c:203-243 | when all regions fit and there are entries for all, every address is such an address |
| `BootSafety.NextKeepsInv` | opensbi/lib/sbi/sbi_hsm.c:96-493 | every step leaves each hart with the state its place in the program relies on |
| `BootSafety.NoHartHangs` | opensbi/lib/sbi/sbi_hsm.c:212-241 | no run reaches a hang: all of a hart's own compare-and-swaps find what they expect |
| `BootSafety.OwnCallsSucceed` | opensbi/lib/sbi/sbi_hsm.c:292-313 | hart_stop and hart_suspend of a running hart never find a wrong state |
| `BootSafety.AtMostOneColdHart` | opensbi/lib/sbi/sbi_init.c:594-638 | over a whole run at most one hart takes the cold-boot path |
| `BootSafety.StatesFollowEdges` | opensbi/lib/sbi/sbi_hsm.c:96-493 | hart states move only along the specified transitions |
| `BootSafety.OneStartPerStop` | opensbi/lib/sbi/sbi_hsm.c:243-290 | successful hart_start calls are exactly one per stopped period that has ended |
| `BootProgress.LotteryTakesEffect` | opensbi/lib/sbi/sbi_init.c:594-638 | the first hart that can takes the cold-boot path, and every other hart waits |
| `BootProgress.StartTakesEffect` | opensbi/lib/sbi/sbi_hsm.c:243-290 | hart_start makes a stopped hart start-pending, counts one start and leaves the caller about to raise its interrupt; on any other hart it changes nothing |
| `BootProgress.OwnCallsTakeEffect` | opensbi/lib/sbi/sbi_hsm.c:212-493 | exactly what stopping, suspending, handling an interrupt and the end of a stop change |
| `BootProgress.StartedHartRuns` | opensbi/lib/sbi/sbi_hsm.c:108-130 | every run can go on, without spurious wakeups and further calls, until a hart that won the lottery, was started or has suspended itself runs |
| `BootProgress.StartCanFinish` | opensbi/lib/sbi/sbi_hsm.c:243-290 | in particular after hart_start of a stopped hart |
| `BootProgress.BootHartsAreStarted` | opensbi/lib/sbi/sbi_domain.c:521-580 | once the cold hart has finished the domains, every boot hart has been started |
| `BootWakeup.NextKeepsWakeInv` | opensbi/lib/sbi/sbi_init.c:161-227 | every step keeps waiting harts marked and woken harts interrupted |
| `BootWakeup.NoColdBootWakeupLost` | opensbi/lib/sbi/sbi_init.c:161-227 | once the cold hart has finished waking, every hart still asleep in the inner loop has its interrupt pending |
| `BootWakeup.NoStartLost` | opensbi/lib/sbi/sbi_hsm.c:108-130 | a sleeping hart that has been started has its interrupt pending or a starter about to raise it |
| `TicketLock.StepKeepsInv` | opensbi/lib/sbi/riscv_locks.c:22-77 | every memory access of lock, trylock and unlock keeps tickets consecutive |
| `TicketLock.MutualExclusion` | opensbi/lib/sbi/riscv_locks.c:22-77 | with fewer than 65536 harts at most one holds the lock |
| `TicketLock.TicketsAreAnInterval` | opensbi/lib/sbi/riscv_locks.c:48-72 | the harts with a ticket are the queue's, pairwise different, the holder first, and their tickets are the interval from owner to next modulo 65536 |
| `TicketLock.FirstComeFirstServed` | opensbi/lib/sbi/riscv_locks.c:48-77 | a hart holds the lock only when all earlier tickets have been served, across wrap-around |
| `TicketLockProgress.LockTakesTurn` | opensbi/lib/sbi/riscv_locks.c:48-72 | spin_lock takes the turn behind all those handed out |
| `TicketLockProgress.TryLockIff` | opensbi/lib/sbi/riscv_locks.c:22-46 | an undisturbed spin_trylock gets the lock if and only if nobody has a ticket, and otherwise returns without a change |
| `TicketLockProgress.WaiterGetsLock` | opensbi/lib/sbi/riscv_locks.c:48-77 | every run can go on, without new calls, until a given waiting hart holds the lock |
| `TicketLockProgress.LockCanSucceed` | opensbi/lib/sbi/riscv_locks.c:48-72 | in particular a hart that has just called spin_lock |
| `VmAssign.StepKeepsBarrierInv` | bao-hypervisor/src/core/inc/cpu.h:93-107 | every step keeps CPUs within one barrier round of each other |
| `VmAssignSafety.BarrierHolds` | bao-hypervisor/src/core/inc/cpu.h:93-107 | no CPU leaves its k-th barrier before every CPU has entered its own |
| `VmAssignSafety.MachinesAreWellFormed` | bao-hypervisor/src/core/vmm.c:73-121 | disjoint CPU sets, one master for each non-empty one, a count that is the set's size and within what was asked for, except for one CPU that a machine asking for none prefers |
| `VmAssignSafety.MachineWithoutDemandGetsCpu` | bao-hypervisor/src/core/vmm.c:75-82 | a run in which the count exceeds what was asked for |
| `VmAssignSafety.AffinityFirst` | bao-hypervisor/src/core/vmm.c:70-95 | before the second barrier a CPU is given only to a machine that prefers it; a CPU given to another machine, or left without one once any CPU is past that barrier, has found all machines that prefer it full |
| `VmAssignSafety.EnoughCpusFillAllMachines` | bao-hypervisor/src/core/vmm.c:97-121 | with as many CPUs as asked for in total, every machine ends up with exactly its number, if machines that ask for none prefer none |
| `VmAssignSafety.AllCanFinish` | bao-hypervisor/src/core/inc/cpu.h:93-107 | every run can go on until all CPUs are done: nobody is held at a barrier for ever |
| `Bitmap.FindNth` | bao-hypervisor/src/lib/bitmap.c:18-33 | the nth bit with a value from a start, or -1 when there are fewer |
| `Bitmap.CountConsecutive` | bao-hypervisor/src/lib/bitmap.c:35-54 | the length of a run, up to a limit and the size |
| `Bitmap.FindConsec` | bao-hypervisor/src/lib/bitmap.c:56-80 | the first run of n bits at or after a start that lies within the size, or -1 when there is none |
| `Bitmap.SetConsecutive` | bao-hypervisor/src/lib/inc/bitmap.h:57-60 | sets exactly the bits of the range |
| `Bitmap.CountBits` | bao-hypervisor/src/lib/inc/bitmap.h:68-77 | counts up to an end index, not over a length |
| `PagePool.UnalignedComplete` | bao-hypervisor/src/core/mem.c:200-261 | an unaligned request fails exactly when no run of n free pages exists |
| `PagePool.AlignedResult` | bao-hypervisor/src/core/mem.c:212-237 | an aligned request's result is n-aligned in physical memory if and only if twice the pool's first page is a multiple of n |
| `PagePool.AlignedPoolGivesAlignedResult` | bao-hypervisor/src/core/mem.c:212-237 | in particular when the pool's base is n-aligned |
| `PagePool.AlignedCompleteUpToTwo` | bao-hypervisor/src/core/mem.c:236-242 | for one or two pages the aligned search fails only if no accepted run is free |
| `PagePool.AlignedSearchMisses` | bao-hypervisor/src/core/mem.c:236-242 | for every n from three on, a pool in which it misses a free aligned run |
| `PagePool.AlignedFound` | bao-hypervisor/src/core/mem.c:212-242 | for every n and base, a free run at an accepted position right after a page in use, or where the second search starts, makes the aligned request succeed |
| `PagePool.AlignedPoolFinds` | bao-hypervisor/src/core/mem.c:212-242 | with an aligned base: a free aligned run at 0 or right after a page in use is enough, and the result is aligned |
| `PagePool.UnalignedNextFit` | bao-hypervisor/src/core/mem.c:200-242 | an unaligned request takes the first run after the last allocation, and only without one the first of all |
| `PagePool.AlignedNextFit` | bao-hypervisor/src/core/mem.c:200-242 | an aligned request does not start over while such a run lies after the last allocation |
| `PagePool.Pool.constructor` | bao-hypervisor/src/core/mem.c:926-942 | an empty pool: nothing taken and as many free pages as clear bits |
| `PagePool.Pool.Alloc` | bao-hypervisor/src/core/mem.c:200-261 | takes n pages that were free, inside the pool and disjoint from all taken before; the free count stays the number of clear bits; the search ends |
| `PagePool.Pool.AreReserved` | bao-hypervisor/src/core/mem.c:773-793 | whether some page of a range inside the pool is in use |
| `PagePool.Pool.Reserve` | bao-hypervisor/src/core/mem.c:812-830 | marks the range; succeeds exactly when it was free; the free count stays right exactly then |
| `Vplic.NextIsUnique` | bao-hypervisor/src/arch/riscv/vplic.c:99-121 | the arbitration has exactly one answer, which is nonzero exactly when an interrupt is above the threshold |
| `Vplic.ExtendLog` | bao-hypervisor/src/arch/riscv/vplic.c:205-228 | claims of interrupts not in service keep a completion between any two claims of one interrupt |
| `Vplic.InjectAccounted` | bao-hypervisor/src/arch/riscv/vplic.c:234-236 | an accepted injection keeps accepted injections minus claims equal to the pending bit |
| `Vplic.CompleteAccounted` | bao-hypervisor/src/arch/riscv/vplic.c:223-225 | a completion keeps active bits equal to claims without completion |
| `Vplic.ClaimAccounted` | bao-hypervisor/src/arch/riscv/vplic.c:205-215 | a claim keeps accepted injections minus claims equal to the pending bit |
| `Vplic.WordIsZeroIff` | bao-hypervisor/src/arch/riscv/inc/arch/vplic.h:27-32 | an enable word reads as zero exactly when no bit of it is set |
| `VplicDevice.Device.constructor` | bao-hypervisor/src/arch/riscv/inc/arch/vplic.h:24-33 | a cleared device with exact lines |
| `VplicDevice.Device.NextPending` | bao-hypervisor/src/arch/riscv/vplic.c:99-121 | the lowest id of highest priority that is pending, inactive, enabled and above the threshold, or 0, if and only if the reading at id 1024 does not beat it; otherwise 1024; always the former in the default layout of contexts |
| `VplicDevice.Device.NextMeans` | bao-hypervisor/src/arch/riscv/vplic.c:99-121 | the arbitration's answer in terms of the pending, active, enable, priority and threshold registers |
| `VplicDevice.Device.ExactMeans` | bao-hypervisor/src/arch/riscv/vplic.c:126-141 | an exact line is up if and only if some interrupt is pending, not in service, enabled and above the threshold |
| `VplicDevice.Device.NeverOverridden` | bao-hypervisor/src/arch/riscv/vplic.c:104-114 | that reading never beats anything where context 0 is not an S-mode context |
| `VplicDevice.SecondClaimIsSpurious` | bao-hypervisor/src/arch/riscv/vplic.c:205-215 | where a platform makes context 0 an S-mode context: two claims with nothing pending, the second answered 1024 |
| `VplicDevice.Device.UpdateLine` | bao-hypervisor/src/arch/riscv/vplic.c:126-141 | the line shows whether the search finds anything, id 1024 included |
| `VplicDevice.Device.SetThreshold` | bao-hypervisor/src/arch/riscv/vplic.c:152-162 | sets the threshold; the line is exact if and only if an interrupt is due or the reading at 1024 does not count |
| `VplicDevice.Device.SetEnable` | bao-hypervisor/src/arch/riscv/vplic.c:164-183 | sets one enable bit; the line stays exact, in that case, for a single S-mode context without physical interrupts |
| `VplicDevice.Device.SetPriority` | bao-hypervisor/src/arch/riscv/vplic.c:185-203 | sets one priority; the line stays exact in the same cases |
| `VplicDevice.Device.Claim` | bao-hypervisor/src/arch/riscv/vplic.c:205-215 | hands out the next interrupt and moves it from pending to in service, or hands out 1024 with its effects on id 0, which never happens in the default layout of contexts; conservation; the line exact in that case, and always in the default layout |
| `VplicDevice.Device.Complete` | bao-hypervisor/src/arch/riscv/vplic.c:217-228 | ends service of an interrupt; an id past the active bits clears a bit of a priority, an enable or a threshold instead; the line exact in that case |
| `VplicDevice.Device.Inject` | bao-hypervisor/src/arch/riscv/vplic.c:230-253 | accepted exactly when the interrupt is not pending; the line stays exact although it is refreshed only where relevant |
| `Bitops.Ffs` | opensbi/include/sbi/sbi_bitops.h:80-109 | halving finds the lowest set bit |
| `Bitops.Fls` | opensbi/include/sbi/sbi_bitops.h:160-189 | halving finds the highest set bit |
| `Bitops.FindFirstBit` | opensbi/lib/sbi/sbi_bitops.c:22-43 | the first set bit of a linear scan, or the size |
| `Bitops.FindFirstZeroBit` | opensbi/lib/sbi/sbi_bitops.c:52-73 | the first clear bit of a linear scan, or the size |
| `Bitops.FindLastBit` | opensbi/lib/sbi/sbi_bitops.c:82-109 | the last set bit below the size, or the size |
| `Bitops.FindNextBit` | opensbi/lib/sbi/sbi_bitops.c:117-154 | the first set bit from an offset on |
| `Bitops.FindNextZeroBit` | opensbi/lib/sbi/sbi_bitops.c:162-200 | the first clear bit from an offset on |
| `Bitops.ForEachSetBit` | opensbi/include/sbi/sbi_bitops.h:191-194 | visits each set bit below the size exactly once, in increasing order |

## Left out

- Coloured allocation and recolouring (`pp_alloc_clr`, `mem_inflate_pt`, `mem_map_reclr`, `color_hypervisor`): the coloured search can resume off its colour, so clean contracts do not hold.
- `mem_map` without given pages, `mem_alloc_vpage`, `mem_free_vpage`, `mem_free_ppages`: freeing never restores the free count; conservation is stated for runs without frees.
- Weak memory: each atomic access is one sequentially consistent step.
- Hart stop and re-initialisation inside the shootdown protocol: all its harts stay running; the bodies of other IPI handlers do nothing there; the TLB event has number 2.
- `sbi_domain_register`: which harts are assigned to which domain is not modelled; each hart is taken to stay in its domain. Domain finalisation is modelled only as starting boot harts, and null-pointer guards are not modelled.
- ARM GIC, vGIC, SMMU, PSCI, device drivers, console, device trees, ecall dispatch, PMU, timer, trap redirection, slab cache and string routines.
- A page-table entry's bit layout: entries are a datatype with invalid, reserved, leaf and table forms.
- Tlb.LocalFlush: requires a size of at most 2^64 - 4096 or flush-all, because the loop counter otherwise wraps and the loop never ends.
- Tlb.UpgradedAsksMore: assumes the platform's range limit is below flush-all; the protocol assumes it is at most 2^64 - 4096, above which the source's flush loop never ends.
- ShootdownCoverage.RemoteFenceCompletes: for page-aligned requests that do not wrap around; those of a mergeable kind within the range limit must also not be the `(0, 0)` encoding nor end exactly at 2^64, for the reasons shown above, and all requests of the run are page-aligned.
- AddressSpace.Space.Map: physical pages are given and contiguous, the range does not run over the end of a span of 2^39 (guest: 2^41) bytes, and page tables can always be allocated; the source does not look whether that failed. For ranges over several tables, which later mapped pages stop it depends on where runs of entries begin and is stated one way only.
- AddressSpace.Space.ExpandPte: the flags of the split part become those of the address space, as in the source; TLB invalidation is not modelled.
- RootDomain.Root.SanitizeRegions: hart masks are a single validity flag.
- SanitizeExamples.EqualKeysChangeDecisions: gives one failing table; that decisions survive is proved when keys stay different, as for separated regions, and the converse is not.
- ConflictCheck.SaneIffConflictsHidden: the exact condition is for tables in which no two regions share order and base; for others the two one-way statements beside it hold.
- Pmp.RoundTrip: address registers store all 64 bits; narrower ones are not modelled.
- PmpTable.ConfiguredTableEnforcesDomain: for byte addresses, with every later entry off, as after reset.
- Boot.Next: platform power control (hotplug, secondary boot, platform suspend) and failing initialisation functions are not modelled; a stopped hart waits in firmware, as the source does without hotplug.
- BootSafety.NoHartHangs: the hart is assigned to its domain throughout, and each domain's boot hart is started once.
- TicketLock.StepKeepsInv: a store-conditional may succeed whenever the word has the value that was loaded, which allows more than the hardware does.
- VmAssign.Step: CPU masks are sets, and barrier counters do not overflow.
- Bitmap.FindConsec: bitmaps are arrays of bits, not of 32-bit words, with one spare bit because the search reads the bit at index size.
- PagePool.Pool.Reserve: works on page numbers, so page-aligned requests; list traversal over several pools is not modelled.
- VplicDevice.Device.Complete: ids whose bit would lie outside the whole device structure, negative ones included, are not modelled, because what the source then clears is unknown.
- VplicDevice.Device.SetEnable: ids below 1024, as the register emulation passes them, and likewise for SetPriority.
- VplicDevice.Device.UpdateLine: refreshing a remote hart's line takes effect at once.
- VplicDevice.Device.Claim: a line of another context is not refreshed, as in the source, so exact lines are stated for a single S-mode context; writes through to the physical PLIC are not modelled.
