# LA_EMU in Dafny

A model of the parts of LA_EMU, a LoongArch and RISC-V emulator, where being right is hard, and proofs of what
those parts promise. `dafny verify dfyconfig.toml` checks the whole project. Modules follow the program:

- **The LoongArch MMU.** `PageWalk` is the multi-level walker with huge pages, `Tlb` the 2048-entry set-indexed STLB
  and 64-entry MTLB, `Mmu` the state machine in place (entries, CSRs and RAM overwritten step by step). `TlbRuns`
  proves that the TLB cannot be told from the page tables over every run; `Textbook` that a walk means the textbook
  translation, with the entries that an address selects in `Entries` and the bits of a leaf in `Rights` (an input in
  `WalkExamples`); `Invalidation` which entries each invalidation takes; `SetVD` what hardware maintenance of the V
  and D bits writes, `MaintainedWalk` and `MaintainedRuns` that the TLB stays transparent with it, `MaintainedExact`
  exactly when it does to the last dirty bit (inputs in `MaintainedExamples`); `Reachable` what holds of every table
  that can arise; `Sharing` exactly which sets of addresses a TLB serves transparently, and `Aliasing` where the code
  stops doing so.
- **Multi-word arithmetic.** `Wide`, `Division`, `Estimate`, `FracDiv` and `FracModrem` are the estimate-and-correct
  long divisions and the IEEE remainder; `ShrJam`, `Rounding`, `RoundPack`, `CorrectRounding` and `SignedRounding` the
  sticky shifts and the rounding of extended doubles. `udiv_qrnnd` and `estimateDiv128To64` are modelled and proved,
  not assumed.
- **The 16550A UART.** `Fifo` is the ring buffer, `Serial` the register-level device, `SerialLaws` what its interrupt
  and its registers mean, `SerialRuns` its runs.
- **Virtio block.** `Virtio` is the split-ring consumer in guest RAM (section 2.6 of VIRTIO 1.1), `DriverLayout` a
  request as the driver lays it out, `Disk` the disk byte by byte, `VirtioResults` what the guest finds afterwards.
- **Checkpoint memory files.** `Pages`, `LittleEndian` (also used by the MMU), `Checkpoint` (records with a present
  flag), `BitmapFormat` (dirty bitmap, low and high memory) and `FileLayout` (both files byte for byte).

`Words` holds machine words as bounded integers: a shift is a division or multiplication by a power of two, a mask of
low ones a remainder, `|` and `^` are written out bit by bit. Wrap-around is explicit (`% W`, `% INDEX`). The UART, whose
registers are bit patterns, uses bit-vectors.

Random victims, host input, the host's disk and the guest's page tables are parameters, quantified over. Where the
original stops the process (a failed assertion, `exit`) or would read past a buffer, the model returns `ok == false`.

## What the proofs assume

- Transparency and no multi-hit: LA64; PRCFG2 allows page sizes 12 to 39 only (the values that both cores set do,
  `SupportedSizes`); STLBPS constant; directory ranges in order (`Ordered`); the LEVEL field of huge directory entries
  clear and bit 6 of table bases clear (`CleanTables`); addresses canonical (bit 47 sign-extended); a page that is
  global in one address space is the same page in all of them (`GlobalShared`), which one address space meets
  trivially. Page tables may change during a run, if the guest invalidates what it changed.
- The textbook translation also needs contiguous directory ranges and huge pages aligned to their size.
- Transparency with V/D maintenance: one address space, STLBPS at the base page size, aligned page-table words, and leaf
  words that are not also directory words (`Tidy`).
- UART: host writes succeed, FCR starts at 0 (`serial_reset` leaves it unset), no break. The host reports no modem line.
- Bitmap checkpoints: at least the 256 MiB of low memory, since with less the original marks pages past its bitmap.
- Virtio: a power-of-two ring, at most a ring of requests outstanding, buffers that do not overlap the queue or each
  other.

## Where the code differs from what one would expect

- `frac64_modrem` and `frac128_modrem` return the right remainder for an even dividend fraction, but count the digits of
  their reduction loop four and eight times in the quotient register. The register is right if and only if those digits,
  a function of the operands (`Loops`), add up to a multiple of 2^64: always when exponents differ by at most 64
  and for equal significands, and past 64 binades exactly when the last two digits together fill the bits that are
  shifted out (`RightIffLastDigits`); the last one alone decides after a single pass, or where the one before it is
  shifted out whole (`RightIffFinalPass`). `WrongQuotient` and `PriorDigitDecides` are failing inputs.
- An odd dividend one binade below the divisor loses its low bit in both (`HalvedDividend`, if and only if).
- `frac128_div` drops the low bit of an odd dividend that is not below the divisor. `LostBitShows` says exactly when the
  result is then wrong; a number divided by itself can come out below one (`OddDividendLosesABit`).
- The address check (`loongarch64/cpu_helper.c:351`) accepts addresses whose bit 47 differs from bit 63, while a TLB match
  ignores bits 48 and up: an entry answers for the whole page pair of such a twin (`NotTransparentOnTwins`). A set of
  addresses is served transparently if and only if none of its members answers wrongly for another
  (`TransparentIff`); canonical addresses are such a set, all accepted addresses are not.
- With V/D maintenance on, the half to update is picked at STLBPS and the half to use at the page size: the second pass
  asks for D again exactly when these parities differ on a writable clean page (`SecondPassSettles`; `ParityMismatch` is
  an input).
- With V/D maintenance on, a store through one page sets D of its leaf word and drops its own TLB entry only: another page
  with the same leaf word is still read as clean (`DirtyBitLags`). Results are those of walking every time if and only if
  no leaf word that is present, writable, clean and open to a load or a fetch serves two pages (`ExactIff`).
- The comments on PTEWIDTH (`loongarch64/tlb_helper.c:597`) promise entries of 64, 128, 192 and 256 bits; the shift by
  three bits per step makes them 8, 64, 512 and 4096 bytes apart (`EntryBytes`).
- Both checkpoint formats skip zero pages, so an image comes back exactly when RAM was zero where the image is. The
  checksum of the record format is accepted either way.
- `roundAndPackFloatx80` honours flush-to-zero only at single and double precision.

## Model

| member | source | states |
|---|---|---|
| `PageWalk.WalkAgree` | loongarch64/tlb_helper.c:565-676 | A walk depends only on the page pair: two canonical addresses of one pair, at the page size the walk returns, walk to the same refill |
| `PageWalk.WalkDirsHuge` | loongarch64/tlb_helper.c:580-592 | Once a huge entry is met, the lower levels change nothing but its scratch LEVEL field |
| `PageWalk.LeafBelowTop` | loongarch64/tlb_helper.c:565-676 | The page size a walk ends with lies below the directories it went through |
| `PageWalk.WalkDirsAgree` | loongarch64/cpu_helper.c:235-245 | Addresses that agree above the leaf's pair go through the same directories |
| `PageWalk.PairHighBits` | loongarch64/cpu_helper.c:107-110 | For canonical addresses, equal pair numbers below bit 48 mean equal bits up to bit 63 |
| `Tlb.SearchResult` | loongarch64/cpu_helper.c:96-161 | Search returns a matching entry among those it looks at, and misses exactly when none of them matches |
| `Tlb.SearchIsFullScan` | loongarch64/cpu_helper.c:96-161 | With entries only where tlbfill puts them, eight ways plus the MTLB scan find a match exactly when a scan of all 2112 entries does |
| `Tlb.FillKeepsPlaced` | loongarch64/tlb_helper.c:323-366 | tlbfill, whatever victim it draws, puts every entry in the set its address selects |
| `Tlb.ClearKeepsPlaced` | loongarch64/tlb_helper.c:368-528 | Clearing E bits keeps that placement |
| `Tlb.VictimPlace` | loongarch64/tlb_helper.c:348-362 | The victim is in the STLB exactly for the STLB page size, and in range |
| `Tlb.VictimSet` | loongarch64/tlb_helper.c:348-358 | The victim's set is the set a search for the address looks in |
| `Tlb.TagOfAddress` | loongarch64/cpu_helper.c:107-110 | The VPPN field kept in an entry covers the address it was filled for |
| `Tlb.FreshHits` | loongarch64/tlb_helper.c:190-241 | A freshly filled entry matches the address it was filled for |
| `TlbRuns.Transparency` | loongarch64/cpu_helper.c:191-298 | Over every run of translations, ASID switches, invalidations, tlbclr, tlbflush and invalidated remaps, for all victims, the results are those of walking the tables every time |
| `TlbRuns.NoMultiHit` | loongarch64/cpu_helper.c:115-160 | In every state a run reaches, at most one valid entry matches any canonical address in any ASID |
| `Reachable.AssertionsNeverFire` | loongarch64/cpu_helper.c:115-160 | So no two looked-at entries match, which is when the multi-hit assertions of the search would fire |
| `TlbRuns.StepKeepsRunning` | loongarch64/cpu_helper.c:191-298 | Every step keeps the invariant: entries hold what a walk finds for every address they cover, and no two overlap |
| `TlbRuns.TranslateStep` | loongarch64/cpu_helper.c:191-298 | One translation returns the walk's result and keeps the invariant, hit or miss |
| `TlbRuns.FillKeepsInv` | loongarch64/tlb_helper.c:323-366 | Filling after a miss keeps entries faithful and disjoint |
| `TlbRuns.FilledDisjoint` | loongarch64/tlb_helper.c:323-366 | After a miss, the new entry overlaps no old one, mixed page sizes included |
| `TlbRuns.FilledCoherent` | loongarch64/tlb_helper.c:190-241 | The new entry holds the walk's result for every address it covers, and G only if both halves have it |
| `TlbRuns.HitIsWalk` | loongarch64/cpu_helper.c:14-87 | What a matching entry holds is what a walk would find now |
| `TlbRuns.ClearKeepsInv` | loongarch64/tlb_helper.c:368-528 | Any operation that only clears E bits keeps the invariant |
| `TlbRuns.RemapPageKeepsInv` | loongarch64/tlb_helper.c:497-528 | Changing one page's mapping and invalidating its address for the current ASID or global keeps the invariant |
| `TlbRuns.PowerOn` | loongarch64/cpu_helper.c:96-161 | An empty TLB meets the invariant |
| `TlbRuns.SupportedSizes` | loongarch64/cpu.c:257-352 | The PRCFG2 values of both cores allow only page sizes from 12 on |
| `Textbook.WalkIsTranslation` | loongarch64/tlb_helper.c:603-676 | Fetching page pairs and splitting huge pages in two, then the permission check, is the textbook translation: the entry that a / 2^base % 2^width selects at each level, the rights of its bits, frame plus offset |
| `Textbook.WalkFindsLeaf` | loongarch64/cpu_helper.c:230-247 | The walker's base is the entry at which the textbook descent ends, huge or not, with its page size |
| `Textbook.WalkVerdict` | loongarch64/cpu_helper.c:14-87 | Every walk's answer, whatever the tables, is read off the bits of the half that the address selects |
| `Textbook.HugeLeafBits` | loongarch64/tlb_helper.c:627-641 | In the leaf made of a huge entry HGLOBAL has moved to G, HUGE and LEVEL are clear, and every other bit is the entry's |
| `Rights.MapPairChecks` | loongarch64/cpu_helper.c:14-87 | The check of a page pair: bit PS of the address picks the half; the answer is the first objection of its bits, or the match that they permit; with V/D maintenance a store to a writable clean page asks for D first |
| `Rights.PermitsIff` | loongarch64/cpu_helper.c:54-76 | A match if and only if V is set, NX clear on a fetch, NR clear on a load, D set on a store, and the privilege level is at most bits 3..2, or equal to them under RPLV |
| `Rights.DecideChecks` | loongarch64/cpu_helper.c:49-86 | Each refusal is the first failing test; write permission is bit 1, execute permission the negation of bit 62 |
| `Rights.AddressIsSum` | loongarch64/cpu_helper.c:46-79 | The physical address is bits 47..PS of the word and the offset in the page |
| `Entries.LoadsSelected` | loongarch64/tlb_helper.c:565-607 | lddir loads entry a / 2^base % 2^width of its table |
| `Entries.LoadsPage` | loongarch64/tlb_helper.c:653-668 | ldpte, with the parity of the address, loads the entry that the page-table field selects |
| `Entries.SameEntryIff` | loongarch64/tlb_helper.c:594-607 | In an aligned table entries lie side by side, and two addresses load the same one if and only if they agree on every bit of the level's field |
| `WalkExamples.WalkedTree` | loongarch64/cpu_helper.c:230-247 | Four levels with a different index at each: a base page and a huge page found, both refused to user code |
| `Invalidation.InvtlbTakes` | loongarch64/tlb_helper.c:426-528 | Entry by entry, by E, ASID, bit 6 of entry0 and the address field: who loses E in each form of invtlb, and that nothing else changes |
| `Invalidation.LineTakes` | loongarch64/tlb_helper.c:368-424 | The same for tlbclr and tlbflush: eight ways of one set, or the MTLB |
| `Invalidation.FlushedMisses` | loongarch64/tlb_helper.c:402-424 | With its set and the MTLB flushed, an address misses in every address space |
| `Invalidation.FlushedPart` | loongarch64/tlb_helper.c:402-424 | After one tlbflush the flushed part has no match |
| `Invalidation.LeftForAsid` | loongarch64/tlb_helper.c:435-462 | After invtlb by ASID only global entries still match that ASID; after invtlb of global entries, only its own |
| `Reachable.FilledServes` | loongarch64/tlb_helper.c:190-241 | A new entry serves another address space if and only if both halves are global |
| `Textbook.HalfAddress` | loongarch64/tlb_helper.c:643-652 | The half of a huge page chosen by the parity bit gives the address of the whole page |
| `SetVD.InvalidatedMisses` | loongarch64/tlb_helper.c:497-528 | In a table whose global tags have global halves, after invtlb page-asid-or-g a search misses; entries not covering the address, or neither of that ASID nor global, are untouched |
| `SetVD.FillAtKeepsSane` | loongarch64/tlb_helper.c:190-241 | Every fill, at any index, keeps: G of the tag implies G of both halves |
| `SetVD.TlbFillIsFillAt` | loongarch64/tlb_helper.c:323-366 | tlbfill is such a fill |
| `SetVD.ClearKeepsSane` | loongarch64/tlb_helper.c:368-528 | Clearing E bits keeps it too |
| `Reachable.InvalidatedAlwaysMisses` | loongarch64/tlb_helper.c:497-528 | The same after every run of tlbwr, tlbfill, translations with or without V/D maintenance and invalidations from an empty TLB |
| `Reachable.RunKeepsSane` | loongarch64/tlb_helper.c:190-241 | Every such run keeps: G of the tag implies G of both halves |
| `Reachable.SearchIsAlwaysFullScan` | loongarch64/cpu_helper.c:96-161 | After every such run without tlbwr, eight ways plus the MTLB find a match exactly when a scan of all 2112 entries does |
| `Reachable.RunKeepsPlaced` | loongarch64/tlb_helper.c:323-366 | Every run without tlbwr keeps each STLB entry in the set of its tag |
| `SetVD.SecondPassFindsFill` | loongarch64/cpu_helper.c:249-275 | The second pass finds the entry just filled and no other |
| `SetVD.SecondPassSettles` | loongarch64/cpu_helper.c:249-275 | The second pass asks for D again if and only if the parities at STLBPS and at the page size differ on a writable clean page; never when STLBPS.PS is PTBASE |
| `SetVD.WriteBackByte` | loongarch64/cpu_helper.c:163-189 | hw_ptw_setVD changes one byte of RAM, and in it only turns V (when P) and D (when W, on a store) from 0 to 1 |
| `SetVD.VisitedFlags` | loongarch64/cpu_helper.c:249-263 | The refill words carry the P, V, W and D bits of the visited entry in memory |
| `SetVD.WalkWritesVD` | loongarch64/cpu_helper.c:249-263 | A whole walk changes no byte but the visited entry's lowest, and there only those two bits, by that entry's own P and W |
| `MaintainedWalk.MaintainedWord` | loongarch64/cpu_helper.c:163-189 | A walk with maintenance raises V and D of the visited word, as its P and W and the access say, and changes no other aligned word |
| `MaintainedWalk.WalkKin` | loongarch64/tlb_helper.c:565-676 | Tables that differ only in V and D of leaf words are walked alike: same page size, same leaf words, refill words equal but for V and D |
| `MaintainedWalk.DirsKin` | loongarch64/tlb_helper.c:565-601 | The descent through such tables ends at the same table or the same huge entry |
| `MaintainedRuns.MaintainedTransparency` | loongarch64/cpu_helper.c:191-298 | With V/D maintenance on and STLBPS at the base page size, over every run of accesses and invalidations and for all victims: every store gets exactly what walking, maintaining and checking every time gives, every load and fetch too but for a dirty bit the TLB may not know yet, and the memories end up equal but for V bits of leaf words |
| `MaintainedRuns.FromPowerOn` | loongarch64/cpu_helper.c:191-298 | The same from an empty TLB and one memory |
| `MaintainedRuns.TouchBoth` | loongarch64/cpu_helper.c:191-298 | One access by both machines |
| `MaintainedRuns.HitOutcome` | loongarch64/cpu_helper.c:49-53 | A hit that does not ask for D has the outcome of walking now, and a store that hits a writable page finds its D set in memory |
| `MaintainedRuns.WalkKeepsTable` | loongarch64/cpu_helper.c:249-275 | After a walk every entry, old or new, agrees with the tables but for a D that lags on a writable page |
| `MaintainedRuns.SetupCanHold` | loongarch64/cpu_helper.c:249-275 | Page tables that meet the assumptions exist: every one-level table with aligned roots, whatever it holds |
| `MaintainedExact.ExactIff` | loongarch64/cpu_helper.c:191-298 | From an empty TLB, with V/D maintenance on: every run of accesses and invalidations, for all victims, gets exactly the results of walking, maintaining and checking every time if and only if no exposed leaf word (cacheable, present, writable, clean, open to a load or fetch) serves two pages |
| `MaintainedExact.ExactTransparency` | loongarch64/cpu_helper.c:191-298 | The same from every state in which the TLB knows the dirty bits: without sharing all results are equal, loads and fetches included |
| `MaintainedExact.ExactFromPowerOn` | loongarch64/cpu_helper.c:191-298 | Without sharing, an empty TLB and one memory give equal results over every run |
| `MaintainedExact.SharingShows` | loongarch64/cpu_helper.c:191-298 | Two pages that share an exposed leaf word give a run whose results differ |
| `MaintainedExact.PairsShow` | loongarch64/cpu_helper.c:249-275 | Two page pairs share it: look, store through the other, look again; the last look finds a clean page in the TLB and a dirty one by walking |
| `MaintainedExact.HalvesShow` | loongarch64/cpu_helper.c:249-263 | The two halves of a pair share it: store through one, look through the other |
| `MaintainedExact.TouchExact` | loongarch64/cpu_helper.c:191-298 | One access: equal results, and no sharing and known dirty bits afterwards |
| `MaintainedExact.HitExact` | loongarch64/cpu_helper.c:49-53 | Where D is known, a hit that does not ask for D has exactly the result of walking now |
| `MaintainedExact.WalkKeepsExact` | loongarch64/cpu_helper.c:249-275 | After a walk every entry, old or new, knows D of the tables the walk leaves |
| `MaintainedExact.UsedAfter` | loongarch64/cpu_helper.c:163-189 | What a walk for one address does to the word that another one uses: D rises exactly if both use one leaf word, it is writable and the access a store |
| `MaintainedExact.NoSharingKept` | loongarch64/cpu_helper.c:163-189 | Maintenance brings about no sharing |
| `MaintainedExamples.DirtyBitLags` | loongarch64/cpu_helper.c:249-275 | Load, store 2 MiB on through the same table, load: the TLB says clean, a walk says dirty |
| `MaintainedExamples.ParityMismatch` | loongarch64/cpu_helper.c:249-263 | 4 KiB pages under an STLB of 16 KiB pages: a store to the odd page is asked for D again after the walk |
| `MaintainedExamples.ExactCanHold` | loongarch64/cpu_helper.c:249-275 | Tables without sharing exist, whatever they hold |
| `Mmu.Cpu.SearchStlb` | loongarch64/cpu_helper.c:115-135 | The way loop returns the first match, and with checking on says whether there were two |
| `Mmu.Cpu.TlbSearch` | loongarch64/cpu_helper.c:96-161 | The loops compute the search; a multi-hit assertion fires if and only if two looked-at entries match |
| `Mmu.Cpu.FillTlbEntry` | loongarch64/tlb_helper.c:190-241 | The entry becomes the fill of the selected CSRs, or stays for an illegal page size; no other entry changes |
| `Mmu.Cpu.FillRandom` | loongarch64/tlb_helper.c:323-366 | The table becomes the fill at the drawn victim |
| `Mmu.Cpu.TlbWr` | loongarch64/tlb_helper.c:308-321 | tlbwr fills the indexed entry or clears it when NE is set |
| `Mmu.Cpu.InvtlbAll` | loongarch64/tlb_helper.c:426-433 | Every E bit is cleared and nothing else |
| `Mmu.Cpu.InvtlbAllG` | loongarch64/tlb_helper.c:435-446 | E is cleared where entry0's G equals the argument |
| `Mmu.Cpu.InvtlbAllAsid` | loongarch64/tlb_helper.c:448-462 | E is cleared for the ASID's entries that are not global in entry0 |
| `Mmu.Cpu.InvtlbPageAsid` | loongarch64/tlb_helper.c:464-495 | E is cleared for those that also cover the address |
| `Mmu.Cpu.InvtlbPageAsidOrG` | loongarch64/tlb_helper.c:497-528 | E is cleared for covering entries of the ASID or global in entry0 |
| `Mmu.Cpu.TlbClr` | loongarch64/tlb_helper.c:368-400 | One STLB line or the whole MTLB loses the current ASID's entries |
| `Mmu.Cpu.TlbFlush` | loongarch64/tlb_helper.c:402-424 | One STLB line or the whole MTLB is cleared |
| `Mmu.Cpu.LoadDir` | loongarch64/tlb_helper.c:565-601 | lddir on RAM returns the directory entry that the address selects, and its address |
| `Mmu.Cpu.LoadPte` | loongarch64/tlb_helper.c:603-676 | ldpte leaves one half of the refill in the CSRs |
| `Mmu.Cpu.WalkDirectories` | loongarch64/cpu_helper.c:230-245 | The level loop ends at the base of the walk, and remembers where the first huge entry lay |
| `Mmu.Cpu.HwPtwSetVD` | loongarch64/cpu_helper.c:163-189 | Refill word and RAM become the updated word and the written-back entry |
| `Mmu.Cpu.MaintainVD` | loongarch64/cpu_helper.c:249-268 | Both halves of a huge page or the selected half are updated, in the CSRs and in RAM |
| `Mmu.Cpu.WalkAndFill` | loongarch64/cpu_helper.c:210-293 | Walk, maintain, invalidate, fill; the saved CSRs are restored |
| `Mmu.Cpu.Translate` | loongarch64/cpu_helper.c:191-298 | The two-pass loop returns what the specification returns, with its TLB and its RAM, with V/D maintenance on or off, and leaves the CSRs alone; any answer but a miss is read off the bits of a matching entry |
| `Aliasing.NotTransparentOnTwins` | loongarch64/cpu_helper.c:350-354 | A concrete run of two accepted addresses, in a state that meets the invariant, on which the TLB's results are not the walk's |
| `Aliasing.WorldIsGood` | loongarch64/cpu_helper.c:350-354 | That run's page tables meet every assumption of transparency, so only the addresses are to blame |
| `Aliasing.AcceptedIsTooMuch` | loongarch64/cpu_helper.c:350-354 | On those tables the accepted addresses are not served transparently |
| `Sharing.TransparentIff` | loongarch64/cpu_helper.c:191-298 | For any set of addresses and any tables: every run over the set, from an empty TLB, in all address spaces and for all victims, returns what walking every time returns, if and only if no member's entry answers wrongly for a member of the same pair |
| `Sharing.PairSharesOneEntry` | loongarch64/cpu_helper.c:103-160 | After a first translation, every address of its page pair below bit 48, twins and neighbours alike, gets the answer of the first one's entry |
| `Sharing.WrongAnswerShows` | loongarch64/cpu_helper.c:103-160 | One wrong answer is enough for a run of two translations that is not transparent |
| `Sharing.TranslateOver` | loongarch64/cpu_helper.c:191-298 | Where the answers are right, one translation of a member returns the walk's result and leaves only entries filled for members |
| `Sharing.HitIsRight` | loongarch64/cpu_helper.c:14-87 | A hit on an entry filled for a member is the walk's result |
| `Sharing.CanonicalAgree` | loongarch64/cpu_helper.c:350-354 | Canonical addresses are such a set on good tables |
| `Wide.Mul64` | host-utils.c:31-64 | Four 32-bit products with carries give the 128-bit product |
| `Wide.Mul128By64` | include/fpu/softfloat-macros.h:517-526 | The 192-bit product |
| `Wide.ShlDoubleValue` | include/fpu/softfloat-macros.h:83-99 | A double-word left shift loses exactly the bits it says it loses |
| `Wide.ShrDoubleValue` | include/fpu/softfloat-macros.h:101-117 | A double-word right shift is the quotient by 2^c, with the remainder in the low bits |
| `Division.CorrectDigit` | include/qemu/host-utils.h:828-838 | A digit estimate at most two high is corrected to the exact digit, though the remainder wraps |
| `Division.UdivQrnnd` | include/qemu/host-utils.h:789-859 | Exact division of two words by a normalised word, for every input with a high word below the divisor |
| `Division.DivU128` | host-utils.c:95-151 | Exact 128-by-64 quotient and remainder for every non-zero divisor, through all normalisation cases |
| `Division.DivS128` | host-utils.c:158-202 | Truncated signed quotient modulo 2^128, and a remainder with the dividend's sign, for every non-zero divisor |
| `Division.EstimateNotLow` | int128.c:53-67 | The estimate from the divisor's normalised top word is never below the quotient |
| `Division.EstimateOneHigh` | int128.c:53-67 | The same estimate is at most one above the quotient |
| `Division.EstimateNear` | int128.c:53-67 | Both bounds on the words the code computes |
| `Division.ProductTest` | int128.c:69-75 | The overflow test on quotient times divisor tells exactly whether the product exceeds the dividend |
| `Division.DivRem128` | int128.c:39-86 | u = q v + r with r < v for every u and every non-zero v |
| `Division.DivRemSigned128` | int128.c:101-145 | Quotient and remainder truncated toward zero, modulo 2^128 |
| `Division.TruncLaw` | int128.c:101-145 | What truncation means: a = q b + r, r smaller than b and, unless zero, of the dividend's sign |
| `Estimate.EstimateDiv128To64` | include/fpu/softfloat-macros.h:561-581 | The estimate is the quotient or up to two more, all ones when the quotient does not fit, and exactly the value of `Approx` |
| `Estimate.CorrectFirst` | include/fpu/softfloat-macros.h:570-576 | The correction loop ends with the exact first digit |
| `FracDiv.Frac64Div` | softfloat.c:1029-1059 | Floor of the scaled quotient with a sticky low bit, normalised, and the exponent correction |
| `FracDiv.QuotientWord` | softfloat.c:1076-1098 | Estimate, multiply back and lower while negative gives the exact quotient word; the loop terminates |
| `FracDiv.WordEstimate` | softfloat.c:1076-1089 | The estimate from the top word alone is never low and at most four high |
| `FracDiv.Frac128Div` | softfloat.c:1061-1106 | Floor with sticky bit of the quotient of the (halved) dividend, and the exponent correction |
| `FracDiv.ExactUnlessOdd` | softfloat.c:1061-1106 | When no bit is lost to the halving, that is the exact scaled quotient, jammed and normalised |
| `FracDiv.LostBitShows` | softfloat.c:1070-1074 | For an odd dividend not below the divisor: exactly when the result differs from the exact one |
| `FracDiv.OddDividendLosesABit` | softfloat.c:1070-1074 | A number divided by itself that comes out below one, not normalised |
| `FracModrem.Frac64Modrem` | softfloat.c:1233-1314 | The exact remainder, nearest-even or truncated, for all normalised operands, as a normalised value with its sign; the quotient register is the quotient plus three times the sum of the loop's digits, right modulo 2^64 if and only if that sum, a function of the operands, is a multiple of 2^64 |
| `FracModrem.Frac128Modrem` | softfloat.c:1316-1409 | The same on 128-bit significands, with seven times the sum |
| `FracModrem.Reduce64` | softfloat.c:1259-1268 | The loop removes 62 bits of exponent at a time, keeps a = q b 2^64 + x 2^e, takes exactly the digits of `LoopSum`, and terminates with at most 64 left |
| `FracModrem.Reduce128` | softfloat.c:1346-1355 | The same, 61 bits at a time |
| `FracModrem.ReduceStep` | softfloat.c:1260-1268 | A digit at most a few units low keeps the invariant after the shift |
| `FracModrem.LastDigit64` | softfloat.c:1270-1281 | The last digit is exact, after any number of subtractions |
| `FracModrem.LastDigit128` | softfloat.c:1357-1368 | The same on three words |
| `FracModrem.NearestEven` | softfloat.c:1287-1297 | The nearest-even choice: the remainder is at most half the divisor in magnitude, and on a tie the quotient is even (section 5.3.1 of IEEE 754-2008) |
| `FracModrem.LowQuotient` | softfloat.c:1259-1288 | Past 64 binades a right register needs a quotient that fits the exponent left by the loop |
| `FracModrem.RegisterFrom` | softfloat.c:1259-1288 | The exact condition from the digits that were taken |
| `FracModrem.RightIffFinalPass` | softfloat.c:1259-1288 | After a single pass, or where the digit before the last is shifted out whole: the register is right exactly when the last digit fills the bits that are shifted out |
| `FracModrem.RightIffLastDigits` | softfloat.c:1259-1288 | From the operands, at every distance past 64 binades: the register is right exactly when the last two digits together fill the bits that are shifted out |
| `FracModrem.LoopSumLow` | softfloat.c:1259-1268 | Modulo 2^64 only the last two passes count |
| `FracModrem.PriorDigitDecides` | softfloat.c:1259-1288 | Exponents 127 apart: the last digit fills the bits shifted out, the one before it does not, and the register is wrong |
| `FracModrem.EqualSignificands` | softfloat.c:1253-1268 | Equal significands give no loop digits: the register is right at every distance |
| `FracModrem.WrongQuotient` | softfloat.c:1259-1288 | A truncated remainder with exponents 65 apart whose quotient register is wrong |
| `FracModrem.SmallDividend` | softfloat.c:1242-1247 | Two binades or more below the divisor, the dividend is its own remainder |
| `FracModrem.HalvedDividend` | softfloat.c:1248-1251 | One binade below, halving gives the remainder if and only if the low bit is clear, and then its sign too |
| `ShrJam.Frac64ShrJam` | softfloat.c:1463-1475 | Floor of the shift with the low bit set when a one was dropped, for every count |
| `ShrJam.Frac128ShrJam` | softfloat.c:1477-1507 | The same on 128 bits, through all count ranges |
| `ShrJam.Frac256ShrJam` | softfloat.c:1509-1549 | The same on 256 bits |
| `ShrJam.JamTwice` | softfloat.c:1463-1549 | Jamming by a and then by b is jamming by a + b |
| `ShrJam.JamThenDivide` | softfloat.c:1463-1549 | An even divisor cannot tell a jammed value from the exact one |
| `Rounding.RoundedIsRounded` | softfloat.c:5043-5058 | The choice by half quanta is the rounding of section 4.3 of IEEE 754-2008, in all five modes |
| `Rounding.RoundedUnique` | softfloat.c:5043-5058 | There is one such value |
| `Rounding.JamRounds` | softfloat.c:5042-5042 | Rounding a jammed value is rounding the exact one |
| `RoundPack.IncrementAndMask` | softfloat.c:5096-5105 | Adding the increment and masking, one more bit on a tie to even, is the rounding |
| `RoundPack.CarryOut` | softfloat.c:5060-5065 | The addition wraps exactly when the rounded value reaches the top |
| `RoundPack.IncrementedIsRounded` | softfloat.c:5187-5201 | The increment of the extended precision, with its tie rule, is the rounding |
| `RoundPack.ExtraShift` | include/fpu/softfloat-macros.h:188-215 | The extra word keeps what rounding needs, for every count |
| `RoundPack.NarrowSubnormal` | softfloat.c:5066-5091 | Below the normal range: shifted with jamming and rounded at the fixed quantum, flags included |
| `RoundPack.FullSubnormal` | softfloat.c:5144-5182 | The same at extended precision |
| `RoundPack.RoundAndPack` | softfloat.c:5018-5204 | Three precisions, five modes, every exponent: the rounded value in its unique encoding; overflow to infinity or the largest finite by direction; inexact iff not exact; underflow iff tiny and inexact, tininess before or after rounding |
| `CorrectRounding.CorrectlyRounded` | softfloat.c:5018-5204 | The encoded number is of the format, and no number of the format is a better answer in the mode, ties included |
| `SignedRounding.SignedCorrect` | softfloat.c:5018-5204 | On signed numbers, overflow included, for every precision, mode, sign and exponent: up is the least number of the format not below the input, down the greatest not above it, toward zero the largest magnitude not above, nearest the closest with ties to even or away, and infinity exactly from halfway past the largest number on |
| `SignedRounding.InexactMeans` | softfloat.c:5093-5095 | Inexact is raised if and only if the packed number is not the input |
| `SignedRounding.OverflowMeans` | softfloat.c:5060-5065 | Overflow is raised if and only if the input is past the largest number (away), halfway past (nearest) or a whole gap past it (toward zero) |
| `SignedRounding.UnderflowMeans` | softfloat.c:5066-5082 | With tininess before rounding, underflow is raised if and only if inexact is and the input is below the smallest normal number |
| `CorrectRounding.UnitPower` | softfloat.c:5029-5037 | The rounding masks leave 24, 53 and 64 significand bits |
| `CorrectRounding.ExactIffRepresentable` | softfloat.c:5093-5095 | Inexact is raised exactly when no number of the format equals the input |
| `CorrectRounding.Neighbours` | softfloat.c:5018-5204 | No number of the format lies strictly between the input and its neighbours on the rounding grid |
| `Fifo.Fifo8.Push` | fifo.c:31-36 | Appends one byte, wherever the ring wraps |
| `Fifo.Fifo8.PushAll` | fifo.c:38-55 | Appends a block, in one or two copies |
| `Fifo.Fifo8.Pop` | fifo.c:57-66 | Removes and returns the oldest byte |
| `Fifo.Fifo8.PeekPop` | fifo.c:68-97 | Returns the longest run without a wrap, and removes it when asked to |
| `Fifo.Fifo8.Reset` | fifo.c:99-103 | Empties the ring |
| `Serial.SerialState.UpdateIrq` | device/serial_plus.c:127-155 | Line and IIR nibble become the cause of the registers, by the chain of tests |
| `Serial.SerialState.Receive` | device/serial_plus.c:630-652 | A byte arrives: kept, or an overrun; register, queue and overrun flag are those of the line, and the interrupt is settled again |
| `Serial.SerialState.Xmit` | device/serial_plus.c:243-304 | Everything waiting is sent in order, to the host or back to the receiver; the loop terminates, leaves THRE and TEMT set and the FIFO empty, and the THR interrupt pends |
| `Serial.SerialState.TakeByte` | device/serial_plus.c:246-259 | The assertions hold; the next byte is taken, and THRE is set after the last |
| `Serial.SerialState.WriteThr` | device/serial_plus.c:373-389 | A byte to transmit: it went where the line says, the THR interrupt pends, and the device is valid again |
| `Serial.SerialState.WriteIer` | device/serial_plus.c:394-432 | The enables take their new value; changing THRI re-arms or drops its interrupt, turning MSI on looks at the modem lines |
| `Serial.SerialState.WriteFcr` | device/serial_plus.c:434-457 | FIFO mode, interrupt level, receive flush with its timeout, transmit flush with its interrupt, and the FIFO bits of IIR |
| `Serial.SerialState.IoWrite` | device/serial_plus.c:354-494 | Every register write keeps the device valid and leaves registers, queues and pending flags as the line says |
| `Serial.SerialState.ReadRbr` | device/serial_plus.c:508-521 | The oldest byte, or the register, is returned; DR and the FIFO timeout follow |
| `Serial.SerialState.ReadIir` | device/serial_plus.c:535-541 | The prioritised cause and the FIFO bits are returned; reading a THR interrupt acknowledges it |
| `Serial.SerialState.ReadLsr` | device/serial_plus.c:548-555 | Overrun, data ready and an idle transmitter are returned; the overrun is cleared |
| `Serial.SerialState.ReadMsr` | device/serial_plus.c:556-573 | The modem lines with their changes, or the wired outputs in loopback, are returned; the changes are cleared |
| `Serial.SerialState.IoRead` | device/serial_plus.c:496-581 | Every register read returns what the line says and leaves what the line says; the device stays valid |
| `Serial.SerialState.TakeFromHost` | device/serial_plus.c:615-652 | One byte from the host is appended, without overrun; in FIFO mode the timeout pends |
| `Serial.SerialState.CheckIo` | device/serial_plus.c:1063-1083 | Exactly as many bytes are taken as the receiver asks for, in order; the loop terminates |
| `Serial.RoomStep` | device/serial_plus.c:583-602 | Each byte taken leaves room for one less |
| `Serial.SerialState.CauseIsLineCause` | device/serial_plus.c:127-155 | The cause computed from the registers is the cause of the line |
| `SerialLaws.CauseIsForemost` | device/serial_plus.c:127-155 | The cause reported is the one enabled and pending source that no other outranks, in the 16550A order; nothing is reported if and only if nothing asks |
| `SerialLaws.CauseReported` | device/serial_plus.c:127-155 | The IIR value of each source by its number, with the FIFO bits, and the interrupt line |
| `SerialLaws.StatusMeans` | device/serial_plus.c:548-555 | The line status read: data ready, overrun, idle transmitter and nothing else |
| `SerialLaws.LoopbackMeans` | device/serial_plus.c:556-573 | In loopback the four modem outputs are read back as the four inputs |
| `SerialLaws.PolledMeans` | device/serial_plus.c:196-228 | Polling finds the lines off and marks what changed, a ring only when it ends |
| `SerialLaws.ModemReadClears` | device/serial_plus.c:556-573 | Reading the modem status takes the changes back |
| `SerialLaws.ReadBack` | device/serial_plus.c:354-494 | What is read back of LCR, SCR, MCR and IER |
| `SerialLaws.TriggerLevels` | device/serial_plus.c:308-332 | The high bits of FCR make the receiver ask from 1, 4, 8 or 14 bytes on |
| `SerialLaws.DividerRoundTrip` | device/serial_plus.c:366-400 | With DLAB set the divisor is read back as written |
| `SerialRuns.ReceivedFirst` | device/serial_plus.c:127-155 | A received byte is reported before the empty holding register, which keeps pending |
| `SerialRuns.OutputIsWritten` | device/serial_plus.c:354-389 | Over every run, the output is the bytes written to THR with DLAB and LOOP clear, in order |
| `SerialRuns.ReceivedIsDelivered` | device/serial_plus.c:496-527 | Without loopback and flushes, bytes delivered, then bytes held, are the bytes taken, in order |
| `SerialRuns.NoOverrun` | device/serial_plus.c:583-602 | Over every run without loopback the receiver never overruns |
| `SerialRuns.Drive` | device/serial_plus.c:354-581 | Every interleaving of accesses and host input, and so every prefix: the device is valid, every read returns what the line says, and the interrupt line and IIR report the foremost source that asks on the line that the run determines |
| `SerialRuns.DriveFromReset` | device/serial_plus.c:885-926 | From reset: the output law, receive conservation, no overrun, and the interrupt, on the device |
| `Virtio.VirtioBlk.HandleRequest` | device/simple_virtio_blk.c:160-214 | The loop terminates across the 16-bit wrap and serves the waiting requests, as they stood at the start, once each and in ring order |
| `Virtio.VirtioBlk.ServeOne` | device/simple_virtio_blk.c:169-212 | One turn: chain checks, publishing, transfer; it exits exactly where the original exits |
| `Virtio.VirtioBlk.PublishUsed` | device/simple_virtio_blk.c:195-200 | Used element, status byte and used index, in that order |
| `Virtio.VirtioBlk.MoveData` | device/simple_virtio_blk.c:204-212 | Disk to RAM or RAM to disk by the header's type and sector |
| `Virtio.SameParse` | device/simple_virtio_blk.c:169-193 | Descriptors not written over hold the same request |
| `Virtio.ProgressStep` | device/simple_virtio_blk.c:168-213 | Serving one request leaves the rest to serve, and their descriptors, as they were |
| `VirtioResults.SlotsDiffer` | device/simple_virtio_blk.c:162-169 | Requests less than a ring apart have different slots, across the 16-bit wrap too |
| `VirtioResults.ServeKeeps` | device/simple_virtio_blk.c:160-214 | Memory that no request writes is unchanged |
| `VirtioResults.UntouchedStays` | device/simple_virtio_blk.c:160-214 | The same byte by byte |
| `VirtioResults.BatchInOrder` | device/simple_virtio_blk.c:160-214 | Every head id and length is in its own used slot, status bytes are zero, every read holds the disk as earlier requests left it, and the disk is that of a plain block device given the payloads in order |
| `Disk.WriteBytes` | device/simple_virtio_blk.c:101-112 | A write puts its bytes at its offset, keeps every other byte, fills a gap with zeros and grows the file to the larger end |
| `Disk.LastWriteWins` | device/simple_virtio_blk.c:101-112 | After every sequence of writes each byte is that of the last write covering it, else the old one, else zero |
| `Disk.RunSize` | device/simple_virtio_blk.c:101-112 | The size is the largest end of the old disk and the writes |
| `Disk.InOrder` | device/simple_virtio_blk.c:204-212 | Both lifted to a batch: every byte of the disk, and of every read, is that of the last earlier write to it |
| `DriverLayout.DriverRequest` | device/simple_virtio_blk.c:165-193 | Header, descriptor chain and ring entry laid out as section 5.2.6 of VIRTIO 1.1 says are read back as the request meant |
| `DriverLayout.AvailLaid` | device/simple_virtio_blk.c:166-168 | The available index is the second field of its ring |
| `VirtioResults.SoundServed` | device/simple_virtio_blk.c:91-112 | Proper chains with transfers inside the disk are all served: the device does not exit |
| `VirtioResults.IndicesMeet` | device/simple_virtio_blk.c:198-200 | Afterwards used and available index are equal and nothing waits |
| `VirtioResults.Notify` | device/simple_virtio_blk.c:160-214 | All of this on the device, for one notification: sound requests succeed, every byte of disk and read buffers is that of the last earlier write to it, and bytes outside used ring, status bytes and read buffers are unchanged |
| `Pages.SumLoop` | checkpoint.c:58-65 | The loop over words is the xor of the words |
| `Pages.SumByPages` | checkpoint.c:58-65 | The checksum of a region is the xor of the checksums of its pages |
| `Pages.SumIsParity` | checkpoint.c:58-65 | Each bit of the checksum is the parity of the words that have it set |
| `Pages.SumZeros` | checkpoint.c:102-102 | Zero pages may be skipped |
| `Pages.OverlayExact` | checkpoint.c:96-103 | Skipping zero pages restores an image if and only if the target was zero where the image is |
| `Checkpoint.SimpleCompress` | checkpoint.c:67-85 | The file is a flag word per page, the non-zero pages, and the checksum |
| `Checkpoint.SimpleDecompress` | checkpoint.c:87-109 | It accepts exactly the files whose records parse and whose length and checksum agree, and leaves their pages; nothing else changes |
| `Checkpoint.ExpandRecords` | checkpoint.c:87-109 | Reading the records of an image gives its non-zero pages over what was there, and its checksum |
| `Checkpoint.SimpleRoundTrip` | checkpoint.c:67-109 | A compressed image is always accepted, and comes back if and only if the target was zero where the image is |
| `Checkpoint.SimpleInjective` | checkpoint.c:67-85 | Different images have different files |
| `Checkpoint.SaveCheckpoint` | checkpoint.c:125-128 | Low and high memory go to their own files |
| `Checkpoint.RestoreCheckpoint` | checkpoint.c:145-148 | On zeroed RAM both come back |
| `BitmapFormat.SaveMemory` | checkpoint.c:427-489 | Two loops over low and high memory build header, bitmap, checksum and the non-zero pages; it fails exactly where the memory is less than low memory, its data offset does not fit the 32-bit header, or it is not there |
| `BitmapFormat.RestoreMemory` | checkpoint.c:374-425 | The pages marked in the bitmap are read in order, across the split; the checksum of what is then in RAM decides the warning; a short file stops it |
| `BitmapFormat.MarkedMeans` | checkpoint.c:460-478 | The bits set are exactly the pages that are not zero |
| `BitmapFormat.RestoreDirty` | checkpoint.c:406-417 | Reading by the bitmap of an image puts its non-zero pages over what was there |
| `BitmapFormat.BitmapRoundTrip` | checkpoint.c:374-489 | A saved image can be read wherever it fits, and comes back if and only if RAM was zero where the image is |
| `BitmapFormat.SaveAndRestore` | checkpoint.c:374-489 | Saving and restoring into zeroed RAM copies guest memory, with no warning, exactly when it can be saved, has at most the 2^43 bytes that can be read, and fits |
| `FileLayout.SimpleLayout` | checkpoint.c:67-85 | Byte for byte: record k lies after k flags and the earlier non-zero pages; its flag is 1 or 0, its page follows a 1, and the checksum ends the file |
| `FileLayout.HeaderLayout` | checkpoint.c:427-489 | Byte for byte: memory size, data offset on the next page boundary, checksum, one bit per page, padding, and the size of the file |
| `FileLayout.PageLayout` | checkpoint.c:457-478 | A non-zero page follows the earlier non-zero pages from the data offset on |
| `FileLayout.ImageLayout` | checkpoint.c:457-478 | Where each byte of guest memory lies in RAM |
| `LittleEndian.LeRoundTrip` | checkpoint.c:481-483 | The header's numbers are read back as written |

## Left out

- LA32 paths, direct-address mode and the direct-mapped windows of `get_physical_address`: case distinctions before the
  translation that is modelled.
- tlbsrch, tlbrd, ertn and exception delivery: register moves.
- invtlb all-asid, page-asid and tlbclr as erasers of an ASID: with G differing in the two halves they skip entries that a
  search still matches, so they are steps that clear E bits.
- muls64, urshift, ulshift, the frac add, subtract, multiply and normalise helpers: easy beside the divisions.
- The assembly variants of `udiv_qrnnd`, `shl_double` and `shr_double`: the portable bodies are modelled.
- softfloat `parts_*` operations, conversions and host-FPU paths: not part of this model.
- UART timers, break, failed or short host writes, the saved-state file and the modem ioctl, which the source comments out.
- Virtio feature, status and queue address registers, logging and interrupt lines: plain stores.
- Virtio.VirtioBlk.HandleRequest: says nothing of memory after an exit, which ends the process; a sector whose byte offset
  exceeds a signed 64-bit file offset is taken as an offset beyond the disk.
- BitmapFormat.RestoreMemory: a header with more than 2^43 bytes of memory, where the original's int page counter
  overflows, is refused.
- BitmapFormat.SaveMemory: memory whose bitmap pushes the data past 4 GiB into the file, where the original's 32-bit
  offset wraps, is refused.
- Register and CSR text files of a checkpoint, ELF loading, the debugger, plugins, instruction semantics and caches: not
  part of this model.
- The PLIC, the plain serial device and the RISC-V headers: simple tables.
