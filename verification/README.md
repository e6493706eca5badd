# Verified models of the simulation and fault-injection code

This project models four parts of the repository in Dafny and proves what they are for.

* **The AXI4 memory models** behind `memory_tick`: the byte store they share, the magic memory that
  answers at once, and the DRAM-timed memory, which queues reads, keeps one in flight per identifier
  and answers when the DRAM calls back. The DRAM is an environment: in each call it accepts
  transactions or not, and its `update` completes any of the transactions outstanding at it, in any
  order. Main results, stated on the ports: which offers are taken follows from what the master drives
  alone; every address transfer is answered by its `len + 1` beats, bytes and `last` marks included,
  in order per identifier, under every completion order, from the store as it is when it is answered;
  responses answer completions in their order and stay on offer until taken; every byte of the store
  is that of the last beat that wrote it; callbacks always find their entry; the timed model delivers
  what the magic model delivers; a burst reads back as written exactly when no two of its beats share
  a place.
* **The fault injector**: marking faults down an instance tree, copying and rewriting the modules they
  lie in, and routing one input and one output bit per fault through every level. Main results: the
  valuations of an injected netlist are valuations of the netlist in which each marked wire is replaced
  by a free bit, and, where no instance with several faults has a child with exactly one, the converse
  holds too; feeding each fault output back into the fault input of the same index gives every original wire
  its original value, at every level and over whole clocked runs; wires outside the fan-out of the cut
  wires never change, at one instant and over clocked runs; acyclic netlists have exactly one
  valuation for each choice of their undriven nets; exact conditions for root bits and marked wires to
  be in bijection and in order, and for the heap program to compute this transformation; it edits no
  module that existed before, keeps the root's name, and gives no two different modules one name.
* **The ALU and its pipeline**: the log-step bit reversal is exact for every width 2^k, all fifteen
  register operations compute their RV64I results, and over every run the pipeline answers exactly the
  requests that no reset, kill or misprediction touched, with the result on the values they select.
* **The clock divider**: a closed form for every divisor from 2 on and every number of edges.

## How the parts fit together

| files | content |
|---|---|
| `Arith`, `Axi`, `ByteStore`, `Bursts`, `HexImage` | division, bits of numbers, channels, the store, bursts, image files |
| `Memory`, `WriteEngine`, `MagicMemory` | class `Memory`, the write channel, the magic model and its runs |
| `DramMemory`, `DramHistory`, `ReadOrder` | the timed model, its invariant over runs, read order |
| `BusLog`, `ReadStores`, `Agreement` | logs of transfers, the stores reads are answered from, agreement of the models |
| `ReadBeats`, `StoreBytes`, `BusPorts`, `TimedPorts`, `CompletionOrder` | beats and bytes on the wires, both models at their ports, completions and responses |
| `Netlist`, `Injection`, `InjectionMeaning`, `ModuleNames` | netlists, the transformation, what it keeps, the names it gives |
| `ClosedLoop`, `FaultCone`, `Valuations` | closing the loop, what a fault can reach, existence of values |
| `FaultRouting`, `FaultDriver`, `StuckAt` | routes of fault bits, drivers, labels, counterexamples |
| `Injector`, `TreeWalk`, `ModuleTree` | the objects, the stack walk, the whole injection |
| `Bits`, `BitReverse`, `Alu`, `AluMeaning`, `BranchUnit`, `AluPipeline` | words, reversal, ALU, branches, pipeline |
| `ClockDivider` | the divider |

Classes whose fields the source updates in place are classes here. Each method equates the new state
with a specification function of the old one; the lemmas are about those functions. C++ inheritance
is composition: the memory models own a `Memory`.

## Assumptions taken from the source and its surroundings

* Word sizes are 1, 2, 4, 8 or 16 bytes, so that the `int` shift building the strobe mask stays in
  range (the harness passes 8-byte words). Burst lengths are at most 256 beats, a beat is no wider than
  a word (section A3.4.1 of ARM IHI 0022E), and AXI identifiers are below the constructor's count.
  The source's own `assert`s on `w_last` and sizes are preconditions.
* Addresses and the cycle counter are 64-bit and wrap. `CarryFree` says that no carry leaves the
  address during a burst, or that the memory size divides 2^64 and so does not notice it.
* `willAcceptTransaction` answers the same within one `tick`, since only `update` changes it.
* Trace properties are about runs without reset; single steps model reset as well. `SimDRAM.v:145-163`
  calls `memory_tick` only when reset is low.
* The pipeline samples the ALU's output wire; `AluPipeline.Wired` says that it is connected to the operands.
* Netlists are trees of modules with named definitions; a module's new name extends the old one by its
  text, which stands for the digest and is injective. Names such as `w_original` and `fault_inputs` do
  not occur beforehand, no wire of an instance is marked twice, and sibling instances differ in name.

## What turned out to need a condition

* **Words in bounds.** Every word access stays inside the array if and only if the word size divides
  the memory size (`ByteStore.WordsInBounds`). `mm_t::init` does not check this;
  `mm_dramsim2_t::init` implies it.
* **Lane mask.** The `int` shift that builds the strobe mask stays in range if and only if words have
  at most 16 bytes (`ByteStore.LaneMaskFits`).
* **Burst round trip.** It holds if and only if no two beats share a slot
  (`Bursts.RoundTripIffOwnSlots`). Unless a carry leaves the 64-bit address that means that the burst
  fits in the memory (`Bursts.RoundTripIffFits`); `Bursts.OverlongBurst` is the failing case.
* **Fault routing.** An instance with several faults passes its whole vector to a child with exactly
  one, which therefore sees bit 0 whatever the position of its fault. Every fault output bit has one
  driver if and only if no instance with several faults has such a child
  (`FaultRouting.SinglyDrivenIffRoutingOk`); `StuckAt.ConflictingDrivers` is a design that has no
  consistent values after injection. A given valuation of the design carries over, with the loop closed,
  if and only if in it all drivers of every fault output bit show the same value
  (`ClosedLoop.ClosesIffDriversAgree`). No two marked wires share a root bit if and only if each such
  child has the first fault of its parent (`FaultRouting.OneToOneIffSoloFirst`).
* **Labels in the driver.** The concatenations list index 0 first, which makes it the most significant
  bit, so each connection to a child with several faults reverses the order. The i-th marked fault is
  connected to bit i of the driver, for every i, if and only if the tree is balanced
  (`FaultRouting.LabelsHoldIffBalanced`): below an odd number of such connections an instance's own
  faults sit in the middle of its list and those of each child lie symmetrically, and a child with a
  single fault has the one that bit 0 belongs to. `StuckAt.LabelsReversed` is a tree with two faults
  in one child, whose labels are exchanged.
* **Bottom-up walk.** The walk remembers instance names, not instances. It reaches every instance,
  after all instances below it, if and only if no instance with children repeats a name met earlier
  (`TreeWalk.WalkIsBottomUpIff`); `TreeWalk.RepeatedNameSkipsChild` shows a marked fault left out.
  The tree becomes its injected form if and only if no instance that the walk skips has a marked
  fault (`TreeWalk.InjectsTreeIffNoFaultSkipped`).
* **Indirect jump targets.** The 40-bit target, sign-extended, is the sum with its lowest bit cleared
  if and only if bits 39 to 63 of the sum agree (`BranchUnit.JalrTargetIsSum`); it is canonical, which
  takes bit 38 as well, if and only if the sum is (`BranchUnit.JalrTargetCanonical`).

## Model

| member | source | states |
|---|---|---|
| `ByteStore.InitGivesWordSize` | chipyard.TestHarness.SmallBoomConfig/mm.cc:36-40 | `init`'s test `lsz & (lsz-1)` with `lsz % wsz == 0` forces the word size to be a power of two |
| `ByteStore.WordsInBounds` | chipyard.TestHarness.SmallBoomConfig/mm.cc:18-33 | writes stay inside the array for every address, and reads for every word-aligned one, if and only if the word size divides the memory size |
| `ByteStore.LaneStrobeBits` | chipyard.TestHarness.SmallBoomConfig/mm.cc:15-17 | after masking exactly the strobes of the addressed lanes remain |
| `ByteStore.LaneMaskFits` | chipyard.TestHarness.SmallBoomConfig/mm.cc:13-16 | the lane mask fits in a non-negative `int` for every beat size and lane if and only if words have at most 16 bytes |
| `ByteStore.FlatWriteAt` | chipyard.TestHarness.SmallBoomConfig/mm.cc:11-26 | a flat write leaves at each position the last byte sent there and the old byte where none was sent |
| `Arith.AndWithPredecessor` | chipyard.TestHarness.SmallBoomConfig/mm.cc:38 | `n & (n-1)` is zero if and only if n is a power of two |
| `MemoryModel.Memory.Init` | chipyard.TestHarness.SmallBoomConfig/mm.cc:36-49 | fresh zeroed storage of the given geometry |
| `MemoryModel.Memory.Write` | chipyard.TestHarness.SmallBoomConfig/mm.cc:11-26 | the in-place byte loop performs one beat write, for every address and strobe |
| `MemoryModel.Memory.Read` | chipyard.TestHarness.SmallBoomConfig/mm.cc:28-34 | returns the word at the reduced address and changes nothing |
| `MemoryModel.Memory.LoadMem` | chipyard.TestHarness.SmallBoomConfig/mm.cc:134-161 | succeeds if and only if the image fits; then the store is the old one with the image laid down from `start` |
| `MemoryModel.Memory.LoadLine` | chipyard.TestHarness.SmallBoomConfig/mm.cc:148-152 | one line is laid down from its right end |
| `HexImage.LoadPlacesImage` | chipyard.TestHarness.SmallBoomConfig/mm.cc:148-156 | an image whose bytes have positions of their own ends with byte p at `(start + p) mod size` and every other byte unchanged |
| `HexImage.LiesIffOwnPositions` | chipyard.TestHarness.SmallBoomConfig/mm.cc:148-156 | every image of a length is found where it was loaded if and only if no two of its bytes share a position |
| `HexImage.LineIsNumber` | chipyard.TestHarness.SmallBoomConfig/mm.cc:147-152 | a line of an even number of digits is laid down as the hexadecimal number that it spells, little-endian |
| `HexImage.ParsePrinted` | chipyard.TestHarness.SmallBoomConfig/mm.cc:147-149 | parsing inverts printing of a line |
| `HexImage.PrintParsed` | chipyard.TestHarness.SmallBoomConfig/mm.cc:147-149 | printing inverts parsing of an even-length lowercase line |
| `HexImage.ImageOfPrinted` | chipyard.TestHarness.SmallBoomConfig/mm.cc:145-155 | the image of printed blocks is their concatenation |
| `Bursts.BeatIsRun` | chipyard.TestHarness.SmallBoomConfig/mm.cc:11-26 | an aligned beat writes exactly its strobed lanes, as a run of bytes from its address |
| `Bursts.BurstIsFlat` | chipyard.TestHarness.SmallBoomConfig/mm.cc:99-117 | an aligned write burst of any beat size and strobes is one flat write from its start address |
| `Bursts.BurstLeavesOthers` | chipyard.TestHarness.SmallBoomConfig/mm.cc:107-109 | positions that receive no strobed byte keep theirs |
| `Bursts.BurstUpdates` | chipyard.TestHarness.SmallBoomConfig/mm.cc:107-109 | a position ends with the last strobed byte sent to it, which comes from the lane of its address |
| `Bursts.BurstFills` | chipyard.TestHarness.SmallBoomConfig/mm.cc:107-109 | after a full-width burst whose beats have slots of their own, every slot holds the word sent to it, also past the end of memory |
| `Bursts.RoundTripIffOwnSlots` | chipyard.TestHarness.SmallBoomConfig/mm.cc:91-117 | for every start, length and memory size: every full-width, fully strobed burst reads back in order, with `last` on the final beat, if and only if no two of its beats share a slot |
| `Bursts.RoundTripIffFits` | chipyard.TestHarness.SmallBoomConfig/mm.cc:91-117 | unless a carry leaves the address, that is if and only if the burst fits in the memory |
| `Bursts.OverlongBurst` | chipyard.TestHarness.SmallBoomConfig/mm.cc:91-117 | a longer burst overwrites its own first word |
| `StoreBytes.BytesFromBeats` | chipyard.TestHarness.SmallBoomConfig/mm.cc:11-26 | after any accepted write bursts, of any alignment, size and strobes, every byte of the store is that of the last data beat whose address, lanes and strobe cover it, or the initial one |
| `ReadBeats.AcceptedAnswers` | chipyard.TestHarness.SmallBoomConfig/mm.cc:91-97 | an address transfer stands for `len + 1` beats of its identifier, `last` on the final one only; byte b of beat i is the store's byte at `(addr / word * word + i * word) mod 2^64 mod size + b` |
| `ReadBeats.BusRoundTrip` | chipyard.TestHarness.SmallBoomConfig/mm.cc:91-117 | write address and data transfers followed by a read address transfer with the same start and length return every list of full words if and only if no two beats share a slot |
| `WriteEngine.WriteInvBeat` | chipyard.TestHarness.SmallBoomConfig/mm.cc:107-117 | each accepted beat keeps: store equals the accepted bursts applied in order, and the write registers describe the unfinished one |
| `WriteEngine.WriteInvStart` | chipyard.TestHarness.SmallBoomConfig/mm.cc:99-105 | so does accepting a write address |
| `WriteEngine.FinishedStep` | chipyard.TestHarness.SmallBoomConfig/mm.cc:107-117 | a cycle finishes a burst exactly when it accepts its last beat |
| `MagicMemory.MagicMemoryModel.Init` | chipyard.TestHarness.SmallBoomConfig/mm.cc:56-60 | starts idle with empty queues |
| `MagicMemory.MagicMemoryModel.Tick` | chipyard.TestHarness.SmallBoomConfig/mm.cc:62-132 | one call performs one step of the specification: reads, write channel, pops, reset |
| `MagicMemory.MagicInvStep` | chipyard.TestHarness.SmallBoomConfig/mm.cc:85-123 | every reset-free cycle keeps stream conservation and the write invariant |
| `MagicMemory.MagicStreams` | chipyard.TestHarness.SmallBoomConfig/mm.cc:85-123 | over every run: delivered and queued read beats are the expanded accepted requests in order, write responses are the finished bursts in order, a burst in flight expects a beat, and the write address and data channels never fire together |
| `MagicMemory.SplitRecovers` | chipyard.TestHarness.SmallBoomConfig/mm.h:73-91 | cutting a stream after each `last` recovers the bursts |
| `MagicMemory.MagicDrainedSplits` | chipyard.TestHarness.SmallBoomConfig/mm.cc:91-97 | a drained run's delivered beats split into one burst per accepted request |
| `BusPorts.MagicTakes` | chipyard.TestHarness.SmallBoomConfig/mm.h:100-102 | a cycle takes a read exactly when one is offered, a write address exactly when one is offered and no burst is in flight, data exactly when offered and one is |
| `BusPorts.MagicPorts` | chipyard.TestHarness.SmallBoomConfig/mm.cc:85-123 | over every run: the transfers follow from the offers alone; the beats sent or waiting are the answers to the address transfers taken, in order, each from the bytes written before it; write responses carry the identifiers of the completed bursts, in order |
| `BusPorts.MagicBytes` | chipyard.TestHarness.SmallBoomConfig/mm.cc:11-26 | over every run every byte of the store is that of the last data beat taken that covers it, or the initial one |
| `BusPorts.MagicResponds` | chipyard.TestHarness.SmallBoomConfig/mm.cc:119-125 | a response goes exactly when it is on offer and ready is high, and otherwise stays on offer |
| `BusPorts.MagicResets` | chipyard.TestHarness.SmallBoomConfig/mm.cc:127-131 | reset takes nothing, drops the waiting responses and keeps all else |
| `DramMemory.FirstFree` | chipyard.TestHarness.SmallBoomConfig/mm_dramsim2.cc:101-102 | the first queued request whose identifier is free: all before it are busy, it is not |
| `DramMemory.DramMemoryModel.Init` | chipyard.TestHarness.SmallBoomConfig/mm_dramsim2.cc:44-61 | 64-byte lines and whole megabytes give whole words; starts idle |
| `DramMemory.DramMemoryModel.FindFree` | chipyard.TestHarness.SmallBoomConfig/mm_dramsim2.cc:101-110 | the scan finds the first request whose identifier is free |
| `DramMemory.DramMemoryModel.IssueRead` | chipyard.TestHarness.SmallBoomConfig/mm_dramsim2.cc:100-111 | that request, and no other, moves from the queue to the DRAM |
| `DramMemory.DramMemoryModel.AcceptRead` | chipyard.TestHarness.SmallBoomConfig/mm_dramsim2.cc:113-115 | an accepted request joins the end of the queue |
| `DramMemory.DramMemoryModel.AcceptWrite` | chipyard.TestHarness.SmallBoomConfig/mm_dramsim2.cc:117-136 | the write channel; a finished burst is handed to the DRAM under the address past its end |
| `DramMemory.DramMemoryModel.PopResponses` | chipyard.TestHarness.SmallBoomConfig/mm_dramsim2.cc:138-142 | pops on accepted responses |
| `DramMemory.DramMemoryModel.OnReadComplete` | chipyard.TestHarness.SmallBoomConfig/mm_dramsim2.cc:17-28 | in every valid state the callback finds its entry, pushes its beats and frees the identifier |
| `DramMemory.DramMemoryModel.OnWriteComplete` | chipyard.TestHarness.SmallBoomConfig/mm_dramsim2.cc:30-37 | likewise for writes |
| `DramMemory.DramMemoryModel.Update` | chipyard.TestHarness.SmallBoomConfig/mm_dramsim2.cc:144 | any sequence of outstanding transactions may complete |
| `DramMemory.DramMemoryModel.Tick` | chipyard.TestHarness.SmallBoomConfig/mm_dramsim2.cc:71-152 | one call performs one step of the specification |
| `DramMemory.CallbackFindsEntry` | chipyard.TestHarness.SmallBoomConfig/mm_dramsim2.cc:17-37 | both non-empty assertions hold for every outstanding transaction |
| `DramMemory.Complete1Safe` | chipyard.TestHarness.SmallBoomConfig/mm_dramsim2.cc:17-37 | a completion keeps, for every address, queue length equal to the number outstanding there |
| `DramMemory.IssueStepSafe` | chipyard.TestHarness.SmallBoomConfig/mm_dramsim2.cc:100-111 | so does issuing a read |
| `DramMemory.WriteStepSafe` | chipyard.TestHarness.SmallBoomConfig/mm_dramsim2.cc:125-136 | so does the write channel |
| `DramHistory.IssueKeepsInv` | chipyard.TestHarness.SmallBoomConfig/mm_dramsim2.cc:100-111 | issuing keeps order, busy bits, filing by address, streams and write history |
| `DramHistory.EnqueueKeepsInv` | chipyard.TestHarness.SmallBoomConfig/mm_dramsim2.cc:113-115 | so does accepting a read |
| `DramHistory.WriteKeepsInv` | chipyard.TestHarness.SmallBoomConfig/mm_dramsim2.cc:117-136 | so does the write channel |
| `DramHistory.PopKeepsInv` | chipyard.TestHarness.SmallBoomConfig/mm_dramsim2.cc:138-142 | so do the response channels |
| `DramHistory.CompleteKeepsInv` | chipyard.TestHarness.SmallBoomConfig/mm_dramsim2.cc:17-37 | so does any completion the DRAM may choose |
| `DramHistory.RunStep` | chipyard.TestHarness.SmallBoomConfig/mm_dramsim2.cc:94-152 | a cycle of a run keeps the invariant and moves the state as the model does |
| `DramHistory.OfIdWithout` | chipyard.TestHarness.SmallBoomConfig/mm_dramsim2.cc:101-108 | erasing the first request of an identifier from the middle of the queue keeps every identifier's order |
| `ReadOrder.PerIdOrder` | chipyard.TestHarness.SmallBoomConfig/mm_dramsim2.cc:17-28 | in every run, per identifier: accepted requests are those answered, then the at most one in flight, then those queued, and the beats delivered or queued are those of the answered ones (section A5.3 of ARM IHI 0022E) |
| `ReadOrder.CallbacksAreSafe` | chipyard.TestHarness.SmallBoomConfig/mm_dramsim2.cc:17-37 | in every run: per address the queues are as long as what is outstanding, a busy bit stands for exactly one entry, and outstanding reads never exceed the identifiers |
| `ReadOrder.Pigeonhole` | chipyard.TestHarness.SmallBoomConfig/mm_dramsim2.h:39-52 | at most as many identifiers in flight as busy bits |
| `ReadOrder.WritesConserved` | chipyard.TestHarness.SmallBoomConfig/mm_dramsim2.cc:117-139 | in every run the store is the accepted bursts applied in order, and each finished burst is waiting, queued or answered exactly once |
| `ReadOrder.TrackStep` | chipyard.TestHarness.SmallBoomConfig/mm_dramsim2.cc:100-115 | a queued request's position never grows, and at each opportunity it or an older request is issued |
| `ReadOrder.BoundedBypass` | chipyard.TestHarness.SmallBoomConfig/mm_dramsim2.cc:100-115 | over every run, position plus opportunities used never exceeds the first position: p + 1 opportunities issue the request |
| `TimedPorts.DramPorts` | chipyard.TestHarness.SmallBoomConfig/mm_dramsim2.cc:17-28 | over every run and completion order: the transfers follow from the offers alone; per identifier the beats sent or waiting answer its address transfers in order, each from the bytes written by the time of the answer, and the rest are queued or in flight |
| `BusPorts.DramTakes` | chipyard.TestHarness.SmallBoomConfig/mm_dramsim2.cc:63-96 | a cycle takes a read exactly when offered and the DRAM accepts, a write address when also no burst is in flight, data exactly when offered and one is |
| `TimedPorts.DramBytes` | chipyard.TestHarness.SmallBoomConfig/mm_dramsim2.cc:125-136 | likewise in every run of the timed model |
| `TimedPorts.DramResponds` | chipyard.TestHarness.SmallBoomConfig/mm_dramsim2.cc:138-142 | a response goes exactly when it is on offer and ready is high, and otherwise stays on offer, whatever completes |
| `TimedPorts.DramResets` | chipyard.TestHarness.SmallBoomConfig/mm_dramsim2.cc:92-151 | a cycle with reset takes no offer and drops the waiting responses; queued reads are still issued, and the burst in flight is kept |
| `CompletionOrder.WritesAnsweredInOrder` | chipyard.TestHarness.SmallBoomConfig/mm_dramsim2.cc:30-37 | over every run the write responses sent or waiting answer the DRAM's write completions in their order, each the oldest unanswered burst handed over under its address, which is the address past the burst's end |
| `CompletionOrder.ReadsAnsweredInOrder` | chipyard.TestHarness.SmallBoomConfig/mm_dramsim2.cc:17-28 | likewise the read bursts sent or waiting, each for the oldest unanswered read issued under the address |
| `CompletionOrder.HandedStep` | chipyard.TestHarness.SmallBoomConfig/mm_dramsim2.cc:125-135 | a cycle hands over a burst exactly when it takes its last beat, under `(addr + (len + 1) * 2^size) mod 2^64` |
| `Agreement.QuietStep` | chipyard.TestHarness.SmallBoomConfig/mm_dramsim2.cc:94-152 | while the store rests, pending reads see the store they were accepted under |
| `Agreement.DrainedRunsAgree` | chipyard.TestHarness.SmallBoomConfig/mm_dramsim2.cc:17-28 | drained runs that accepted the same requests delivered the same beats to every identifier |
| `Agreement.TimedModelAgreesWithMagic` | chipyard.TestHarness.SmallBoomConfig/mm_dramsim2.cc:17-28 | two runs from one initial store that saw the same read, write and data transfers in the same order deliver, once drained, the same beats to every identifier, whenever each transfer was accepted and whatever the completion order |
| `Agreement.SameTransfersAgree` | chipyard.TestHarness.SmallBoomConfig/mm_dramsim2.cc:92-152 | it is enough that the two masters' offers lead to the same transfers |
| `Agreement.ReadOnlyRunsAgree` | chipyard.TestHarness.SmallBoomConfig/mm.cc:91-97 | without write beats, equal accepted read requests suffice |
| `BusLog.DramReadsFromLog` | chipyard.TestHarness.SmallBoomConfig/mm_dramsim2.cc:113-136 | in every run of the timed model each accepted read saw the initial store after the write bursts and beats accepted before it |
| `BusLog.MagicReadsFromLog` | chipyard.TestHarness.SmallBoomConfig/mm.cc:91-117 | likewise in every run of the magic model |
| `BusLog.SameLogSameReads` | chipyard.TestHarness.SmallBoomConfig/mm_dramsim2.cc:113-136 | the order of transfers determines which reads were accepted and the store each was accepted under |
| `ReadStores.AnswersFromLog` | chipyard.TestHarness.SmallBoomConfig/mm_dramsim2.cc:17-28 | in every run each read is answered in one cycle, from the store as it is at the end of that cycle, which is the initial store after exactly the write beats transferred so far; by then the read itself has been accepted |
| `ReadStores.StepAnswers` | chipyard.TestHarness.SmallBoomConfig/mm_dramsim2.cc:94-152 | a cycle only adds answers, all of them from the store that it leaves, whatever it writes and completes |
| `Injection.Indices` | injector/ModuleInstance.py:119-140 | the positions of the paths through a child, increasing |
| `Injection.IndicesComplete` | injector/ModuleInstance.py:133-140 | no path through the child is missing from them |
| `Injection.MarkKeepsDistributed` | injector/ModuleInstance.py:71-96 | a successful mark appends the path here and keeps every child's list equal to the tails of the paths through it |
| `Injection.MarksAreDistributed` | injector/ModuleInstance.py:71-96 | so after any sequence of successful marks on a fresh tree |
| `Injection.MarkSucceedsIff` | injector/ModuleInstance.py:71-96 | marking succeeds exactly for the paths that lead, child by child, to an instance; the empty path is invalid, any other names a child that is not there |
| `Injection.FaultCount` | injector/ModuleInstance.py:119-140 | an instance's fault count is its own faults plus the sum over its children |
| `Injection.InjectionKeepsTypes` | injector/ModuleInstance.py:170-201 | after injection every declaration names the child's final module, and headers bear that name |
| `Injection.InjectedHeader` | injector/ModuleInstance.py:170-201 | the root keeps the name in its header; any other rewritten module bears its new type name there, and a type name changes exactly where a fault is marked |
| `ModuleNames.SameNameSameModule` | injector/ModuleInstance.py:170-173 | instances whose modules get one name get one module, whichever faults are marked in them |
| `ModuleNames.InjectedNamesModules` | injector/ModuleInstance.py:170-173 | so below the injected root every type name names one module, if every parsed one did |
| `Injector.Module.Copy` | injector/Module.py:181-182 | a new object with equal text and type |
| `Injector.Module.InjectFault` | injector/Module.py:83-91 | the wire takes a fault bit, its driver moves to the placeholder, which is shown on the output bit |
| `Injector.ModuleInstance.MarkFault` | injector/ModuleInstance.py:71-96 | the heap recursion marks the tree as `Mark` does, with both error outcomes |
| `Injector.ModuleInstance.FindChild` | injector/ModuleInstance.py:81-82 | the first child of that name |
| `Injector.ModuleInstance.CutWires` | injector/ModuleInstance.py:116-140 | own wires are cut in order, all other paths are filed by child in order of first use |
| `Injector.ModuleInstance.Redeclared` | injector/ModuleInstance.py:143-173 | exactly the declarations of children on a fault path change: type and fault ports |
| `Injector.ModuleInstance.InjectFaults` | injector/ModuleInstance.py:106-201 | without faults nothing changes; otherwise a fresh module holds the rewritten text and type, the root's under its old header and any other's under its new name, and no other module is edited |
| `InjectionMeaning.CutAllShape` | injector/Module.py:83-91 | which definitions a list of cuts leaves, adds and replaces |
| `InjectionMeaning.InjectTreeShape` | injector/ModuleInstance.py:106-201 | what injection leaves at one level: cut definitions, fault width, connections, children injected |
| `InjectionMeaning.InjectedIsForced` | injector/ModuleInstance.py:119-173 | every valuation of the injected netlist satisfies the original equations with each marked wire forced to its root input bit |
| `ClosedLoop.ClosedIsOriginal` | injector/ModuleInstance.py:183-191 | with every fault input fed from the output of the same index, every valuation of the injected netlist is one of the original |
| `ClosedLoop.ForcedIsInjected` | injector/ModuleInstance.py:119-173 | conversely, a valuation of the forced netlist in which the drivers of every fault output bit agree extends to the injected one |
| `ClosedLoop.ClosesIffDriversAgree` | injector/ModuleInstance.py:150-191 | an original valuation extends to a closed-loop valuation of the injected netlist with the same wires if and only if in it all drivers of every fault output bit show the same value |
| `ClosedLoop.RoutingAgrees` | injector/ModuleInstance.py:150-166 | under the routing condition they do in every valuation |
| `ClosedLoop.OriginalIsClosed` | injector/ModuleInstance.py:183-191 | so under the routing condition every original valuation extends to such a closed-loop valuation |
| `FaultCone.OutsideDetermined` | injector/Module.py:83-91 | in an acyclic netlist the values outside a fan-out closed region are determined by the undriven nets |
| `Valuations.AcyclicHasValuation` | injector/Module.py:83-91 | an acyclic netlist without doubly driven wires has a valuation for every choice of its undriven nets |
| `Valuations.AcyclicHasOneValuation` | injector/Module.py:83-91 | that valuation is the only one, on every wire of every level |
| `Valuations.InjectedHasValuation` | injector/ModuleInstance.py:106-201 | under the routing condition the injected netlist of an acyclic one has a valuation for every choice of fault input bits and undriven nets |
| `FaultCone.ConeIndependence` | injector/Module.py:83-91 | whatever drives the fault inputs, wires outside the fan-out of the cut wires keep their values at every level |
| `FaultCone.ConeRuns` | injector/Module.py:83-91 | so over every clocked run, wires outside the fan-out through gates and registers keep their values |
| `FaultCone.ClosedLoopKeepsValues` | injector/ModuleInstance.py:183-191 | with the loop closed every original wire at every level keeps its value |
| `FaultCone.ClosedLoopRuns` | injector/ModuleInstance.py:183-191 | so over every clocked run, registers included |
| `FaultRouting.BitToSiteToBit` | injector/ModuleInstance.py:143-166 | where every child with a single fault has the first of its parent, following a root bit to its marked wire and back returns the bit |
| `FaultRouting.SiteToBitToSite` | injector/ModuleInstance.py:143-166 | and following a marked wire to its root bit and back returns the wire |
| `FaultRouting.OneToOneIffSoloFirst` | injector/ModuleInstance.py:143-166 | no two marked wires share a root bit if and only if, at every level, a child with a single fault has the first of its parent |
| `FaultRouting.RoutingOkIsSoloFirst` | injector/ModuleInstance.py:143-166 | the condition for single drivers implies the one for the bijection |
| `FaultRouting.RoutesCarry` | injector/ModuleInstance.py:161-166 | that root input bit drives the marked wire and the root output bit of the same index shows its former driver: both routes are the same map |
| `FaultRouting.SinglyDrivenIffRoutingOk` | injector/ModuleInstance.py:150-166 | every fault output bit of every instance has exactly one driver if and only if no instance with several faults has a child with exactly one |
| `FaultRouting.LabelsHoldIffBalanced` | injector/fault_driver.py:13-20 | the i-th marked fault is connected to root bit i, for every i, if and only if the tree is balanced |
| `FaultRouting.KidRootBit` | injector/ModuleInstance.py:150-166 | the root bit of a child's fault is its own bit routed through the child's connection: reversed among several, bit 0 for a single one |
| `FaultRouting.NamedWire` | injector/ModuleInstance.py:119-140 | the marked wire that the i-th path leads to bears the name that the path gives |
| `StuckAt.DriverSticksAtZero` | injector/fault_driver.py:13-20 | with the lines that the generator writes, every marked wire is zero in every valuation |
| `StuckAt.DriverHasValuation` | injector/fault_driver.py:13-20 | under the routing condition an acyclic netlist, injected and driven, has a valuation for every driver |
| `StuckAt.DriverForces` | injector/fault_driver.py:13-20 | whatever values the lines assign, the injected netlist computes the original equations with the marked wires held at the routed values |
| `StuckAt.LineDrives` | injector/fault_driver.py:19-20 | in every tree a marked wire carries the value of the line of its root bit |
| `StuckAt.LabelDrives` | injector/fault_driver.py:19-20 | in a balanced tree the wire named in the label of a line carries the value that the line assigns |
| `StuckAt.ConflictingDrivers` | injector/ModuleInstance.py:164-166 | a parent with two faults and a child with one: the original has a valuation, the injected netlist none |
| `StuckAt.LabelsReversed` | injector/fault_driver.py:19-20 | a tree with two faults in one child: in every valuation line 0 drives the second marked wire and line 1 the first |
| `TreeWalk.WalkIsBottomUpIff` | injector/ModuleTree.py:41-62 | the stack walk is the post-order of the whole tree if and only if no instance with children repeats a name met earlier |
| `TreeWalk.RepeatedNameSkipsChild` | injector/ModuleTree.py:49-62 | a tree without equal siblings in which an instance repeats the name of a leaf elsewhere: a fault marked in its child is never cut, and the tree does not become its injected form |
| `TreeWalk.RepeatsOrder` | injector/ModuleTree.py:49-62 | the walk of that tree, which never reaches the child |
| `TreeWalk.PostBottomUp` | injector/ModuleTree.py:44-62 | in that order every instance comes after all below it |
| `TreeWalk.PostListListsOnce` | injector/ModuleTree.py:44-62 | and each occurs exactly once |
| `TreeWalk.DistinctNamesSuffice` | injector/ModuleTree.py:49 | pairwise distinct names are enough |
| `TreeWalk.ExpandStep` | injector/ModuleTree.py:49-58 | one push step keeps the remaining visits and shrinks the unseen names |
| `TreeWalk.InjectsTreeIffNoFaultSkipped` | injector/ModuleTree.py:44-68 | the walk followed by the root leaves exactly the injected tree if and only if no instance that it skips has a marked fault |
| `TreeWalk.WalkInjectsTree` | injector/ModuleTree.py:44-68 | a walk without such repeats leaves exactly the injected tree |
| `FaultDriver.GenerateFaultDriver` | injector/fault_driver.py:6-24 | one line per marked fault, each driving its own bit with 0 |
| `ModuleTrees.ModuleTree.InjectBelowRoot` | injector/ModuleTree.py:41-62 | the loop terminates and injects the instances of the walk in order |
| `ModuleTrees.ModuleTree.InjectOne` | injector/ModuleTree.py:62 | one injection changes one instance |
| `ModuleTrees.ModuleTree.InjectFaults` | injector/ModuleTree.py:39-68 | the tree becomes its injected form if and only if no skipped instance has a marked fault; in any case the root keeps its header, instances without faults keep their module object, and no module that existed before is edited |
| `BitReverse.ButterflyReverses` | injector/alu.v:509-538 | for every width 2^k the stages with blocks 2^(k-1), ..., 1 are exact bit reversal |
| `BitReverse.StageAt` | injector/alu.v:509-513 | one masked exchange moves each bit by one block and none across the word's ends |
| `BitReverse.ShiftByReversal` | injector/alu.v:539-573 | reverse, shift right, reverse is a shift left |
| `Alu.Reverse64Reverses` | injector/alu.v:509-538 | the six stages with their literal masks reverse every 64-bit word |
| `AluMeaning.AdderAdds` | injector/alu.v:495-499 | the adder's sum modulo 2^64 |
| `AluMeaning.AdderSubtracts` | injector/alu.v:495-499 | with the inverted operand and the carry it subtracts |
| `AluMeaning.SltMeans` | injector/alu.v:500-501 | the sign trick decides signed and unsigned comparison for all operands |
| `AluMeaning.ShamtMeans` | injector/alu.v:505-506 | the shift amount is the second operand modulo 64 or 32 |
| `AluMeaning.LeftShiftBits` | injector/alu.v:507-576 | the reversed right shift is a left shift of the selected operand |
| `AluMeaning.ShoutRBits` | injector/alu.v:540-543 | the 65-bit arithmetic shift fills with the sign only for arithmetic codes |
| `AluMeaning.XorBitwise` | injector/alu.v:577-578 | bit i of the exclusive or |
| `AluMeaning.OrBitwise` | injector/alu.v:577-581 | bit i of the or, which the unit forms from the exclusive or and the and |
| `AluMeaning.AndBitwise` | injector/alu.v:579-580 | bit i of the and |
| `AluMeaning.AluComputes` | injector/alu.v:487-592 | ADD, SUB, SLL, SLT, SLTU, XOR, SRL, SRA, OR, AND and the five W forms equal their RV64I results for all operands (sections 2.4 and 5.2 of the RISC-V Unprivileged ISA 20191213) |
| `Bits.ShiftArithMeans` | injector/alu.v:542 | an arithmetic right shift divides the signed value, rounding down |
| `Bits.ShiftLeftMeans` | injector/alu.v:544-573 | a left shift multiplies modulo the width |
| `BranchUnit.BranchDecides` | injector/alu.v:210-227 | the selected next address is the target exactly when the branch condition holds on the register values |
| `BranchUnit.BranchReport` | injector/alu.v:233-237 | a live conditional branch reports a misprediction exactly when condition and predicted direction differ |
| `BranchUnit.IndirectReport` | injector/alu.v:252-256 | an indirect jump reports none exactly when the front end went on at its very target, for the instruction at its place |
| `BranchUnit.DirectReport` | injector/alu.v:226-237 | types 0 and above 8 fall through and type 7 jumps, each reporting a wrong prediction when live; nothing else that is not indirect reports |
| `BranchUnit.JalrTargetCanonical` | injector/alu.v:239-246 | the 40-bit indirect target is canonical if and only if the sum is |
| `BranchUnit.JalrTargetIsSum` | injector/alu.v:239-246 | the target, sign-extended, is the sum with its lowest bit cleared if and only if bits 39 to 63 of the sum agree |
| `BranchUnit.JalrTargetBits` | injector/alu.v:242-246 | the target is even, agrees with the sum up to bit 38, and its top bit is bit 39 of the sum or, where the bits above disagree, the opposite of bit 38 |
| `BranchUnit.TargetSumMeans` | injector/alu.v:240-241 | the sum adds the signed offset modulo 2^64 |
| `AluPipeline.AluUnit.ClockEdge` | injector/alu.v:312-372 | all pipeline registers take their new values from the old ones at once |
| `AluPipeline.ResponseExactly` | injector/alu.v:270-279 | in every run cycle t + 3 responds if and only if a request was valid at t, no reset or kill occurred in t..t+2 and no misprediction in t..t+3 hit a branch it still depended on; data and destination are those of cycle t |
| `AluPipeline.PendingBit` | injector/alu.v:329-347 | a branch is depended on exactly until an earlier cycle resolves it |
| `AluPipeline.BypassAnnounces` | injector/alu.v:280-291 | whatever is delivered at t + 3 was offered on the three bypass ports at t, t + 1 and t + 2 |
| `AluPipeline.OperandValues` | injector/alu.v:197-208 | the operands are the register, the sign-extended program counter or immediate, 2 or 4, or `prs1 mod 32`, as the selectors say |
| `AluPipeline.ResponseComputes` | injector/alu.v:308-311 | the delivered data is the RV64I result on the words that have the values the request selects |
| `AluPipeline.SumDelivered` | injector/alu.v:308-311 | a sum delivers those two values added modulo 2^64 |
| `AluPipeline.MoveDelivered` | injector/alu.v:365-369 | a move delivers its second register, whatever the ALU computes |
| `AluPipeline.BypassExactly` | injector/alu.v:280-291 | bypass port k offers at t + k what was requested at t, exactly when the request was valid and no reset came in between |
| `ClockDivider.ClockDividerN.Posedge` | chipyard.TestHarness.SmallBoomConfig/ClockDividerN.sv:28-39 | one input edge, with the counter cut to its width |
| `ClockDivider.ClosedForm` | chipyard.TestHarness.SmallBoomConfig/ClockDividerN.sv:10-39 | for every divisor from 2 on and every n, the counter is `(n + DIV/2 - 1) mod DIV` and the output is high exactly when that is at least DIV/2 |
| `ClockDivider.Periodic` | chipyard.TestHarness.SmallBoomConfig/ClockDividerN.sv:22-39 | period DIV |
| `ClockDivider.RisesOncePerPeriod` | chipyard.TestHarness.SmallBoomConfig/ClockDividerN.sv:34-36 | the output rises exactly at edges 1, 1 + DIV, 1 + 2 DIV, ... |
| `ClockDivider.DutyCycle` | chipyard.TestHarness.SmallBoomConfig/ClockDividerN.sv:3-6 | every window of DIV cycles is high for ceil(DIV/2) of them |

## Left out

- MemoryModel.Memory.LoadMem: when the image is too large the source aborts; the contract then only says that loading failed. Lines are limited to digits and lowercase `a` to `f`; on an odd-length line the leftmost character is ignored, as in the source.
- MemoryModel.Memory.Init: `mmap`, its failure and `munmap` are not modelled. Words of more than 16 bytes are left out, because there the mask's `int` shift overflows for some beats (`ByteStore.LaneMaskFits`), and so are memories that are not whole words, whose last word leaves the array (`ByteStore.WordsInBounds`).
- MemoryModel.Memory.Write: beat sizes whose mask the `int` shift cannot build are left out; 64 bytes, which skips the mask, is included.
- MagicMemory.MagicMemoryModel.Init: the same words and memory sizes.
- DramMemory.DramMemoryModel.Init: words of 32 and 64 bytes are left out for the same reason.
- MagicMemory.MagicMemoryModel.Tick: the values driven on the read and write response outputs while no response is valid are not modelled.
- Bursts.BurstIsFlat: start addresses that are not aligned to the beat size are left out, since the source steps the address without realigning it; each beat is still modelled exactly.
- Bursts.BurstLeavesOthers: aligned start addresses only, likewise.
- Bursts.BurstUpdates: aligned start addresses only, likewise.
- Bursts.RoundTripIffFits: bursts that carry out of the 64-bit address, over a memory size that does not divide 2^64, are left to `Bursts.RoundTripIffOwnSlots`, which covers every burst.
- Bursts.OverlongBurst: likewise.
- ReadOrder.WritesConserved: states conservation and not the order of write responses of one identifier, because `write_id_busy` is never set and the DRAM may complete such writes in any order.
- Injector.ModuleInstance.MarkFault: on an error the source ends the program; the partly extended lists are then not described.
- ModuleTrees.ModuleTree.InjectFaults: appending the driver instance to the root's children, printing and dumping are left out.
- AluPipeline.ResponseComputes: the unpacking of immediates and the program counter of the request are inputs.
- AluPipeline.AluUnit.ClockEdge: the `RANDOMIZE` blocks are covered by arbitrary power-up contents; masks are sets of branch tags.
- Narrow multi-beat reads: modelled as in the source, which steps by whole words whatever the beat size.
- DRAMSim2 itself, its clock and power callbacks: only the environment described above.
- Cuts of bus bits and of registers in `Module.inject_fault`: the bus text repeats the faulty bit and the register pattern does not match its own declaration, so there is no settled meaning to preserve.
- Regular expressions, text layout, the digest and Verilog syntax: netlists are abstract syntax.
- Building the instance tree from text (`_find_children`) and the table of all modules: the tree is given.
- A whole vector connected to a narrower port: modelled as its low bits, the rest driven with zero.
- ALU codes 13 and 15 and undecoded codes: no instruction of the modelled set uses them.
- `ClockDividerN` with DIV = 1: the output is the input.
- Response codes, the outputs of `ALUUnit` that copy request fields, `SimDRAM.v`'s register layer, the socket and terminal bridges, and the generated memory wrappers: they forward values unchanged, or connect to the outside.
