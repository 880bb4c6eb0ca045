# EFIMac boot path: models and proofs

This project models four small machines of the boot path and proves what they
are for: the PEF/CFM fragment loader (`src/boot/pef_loader.c`), the ROM
decoding and rewriting of the boot loader (`src/boot/bootloader_impl.c`), the
classic HFS reader (`src/fs/hfs.c`) and the emulated clock, Time Manager queue
and disk Prime call (`src/cpu/emul_op.c`). The Python tools that implement the
same formats are modelled as second implementations and the C code is proved
to agree with them.

Code that changes state in place is a `class` or a method over `array<byte>`
whose `ensures` ties the new state to a specification function; the main
results are lemmas about those functions, for all inputs and all runs.

## How the files fit together

| files | what they hold |
|---|---|
| `Bytes` | bytes, machine words, big-endian access, splicing |
| `PefCode`, `PefTrace`, `PefPatch`, `PefExec` | the relocation bytecode: decoding, unrolling of nested repeats, traces (lists of patches), and the in-place recursive interpreter |
| `PefMeaning` | what each relocation code does to the words of a section, in numbers |
| `PefAlgebra`, `PefSection` | additivity and undoing of relocations, a section with all its headers |
| `PefCarry`, `PefOverlap` | when additivity holds, exactly: words that share bytes, and the order of their carries |
| `PefPlace` | section placement and the TOC |
| `PefReference`, `PefApply` | the two-phase Python relocator: decoding to events, applying them |
| `PefPattern`, `PefPatternReference`, `PefPatternScript`, `PefPatternCode` | pattern-initialized data: the C decoder, its agreement with the semantics of the format, the Python script, an assembler and its round trip |
| `Lzss`, `Parcels` | the ring-dictionary decoder, the script decoder, the parcel chain |
| `RomJumpTables`, `RomJumpEntries`, `RomSweep` | jump-table rebasing, exactly which entries it rebases, the `rlwimi` sweep |
| `HfsDevice`, `HfsOverflow`, `HfsRead`, `HfsReference` | byte reads over blocks, the sorted overflow table, the file reader, the Python reader and where the two agree |
| `BootStaging` | the bump allocator of staged files |
| `EmulTime`, `EmulRuns`, `EmulQueue`, `EmulHistory`, `EmulDisk` | the clock, its runs, the timer queue, queue and flags by the history of the calls, the Prime transfer |

Specification functions that a method shares with its contract are given a second
reading, in numbers and bytes: see the rows on `PefMeaning`, `EmulHistory`, the byte
lemmas (`HeaderBytes`, `ParcelBytes`, `FieldBytes`, `DeliveredBytes`), `CellNumbers`
and `GatherIsMap`. No lemma uses automatic induction; each says so.

A relocation trace is computed from the chunk stream, the default address and
the length of the buffer only: `PefCode.Trace` takes neither the buffer nor the
bases. That `ExecRange` is proved equal to the trace is therefore also the
statement that success, every patched position and the final position and
import index do not depend on the contents of the section or on where it is
loaded.

## What the code does that its reader might not expect

* A transition vector run checks that the whole 12-byte item fits; the Python
  relocator only touches its first two words. With a section that ends in the
  padding word the two differ (`PefReference.PaddingDiffers`). The same holds for
  the second word of an 8-byte virtual table item. The agreement theorem therefore
  asks for whole items, and `OnePassFitsOnly` shows that this is needed.
* The opcode test is on seven bits, so only 0x50, 0x52, 0x58 and 0x5A are accepted of
  the two-word codes, whose opcode field has six bits; 0x51, 0x53, 0x59 and 0x5B are refused.
  Codes 0x26 to 0x2F act as SmBySection, and the SetSect codes do nothing.
* Relocating twice is not relocating by the sum when two patches overlap partly
  (`PefOverlap.OverlapNotAdditive` gives a stream of four words). For streams that
  patch no position twice that is the only obstacle (`SectionAdditiveExactly`). Where
  positions repeat, overlap need not show: a patch repeated a multiple of 2^32 times
  cancels out (`StraddleMayCancel`).
* A repeat count of 2^32 - 1 in pattern data escapes the destination check, and only
  that does (`PefPattern.ChecksAgree`); the loop it starts never ends, also on an empty
  block. Numbers wider than 32 bits are reduced. The decoder finishes with what the
  format means whenever that fits and no such repeat is met
  (`PefPatternReference.ExpandIsReference`). It also finishes on streams to which the
  format gives no meaning or a longer one, exactly those on which it reduces an
  argument that matters (`PefPatternReference.FinishedRight`).
* The pattern script reads numbers on past the end of its section and cuts payloads
  short where the file ends. On sections that contain their numbers and payloads it
  gives what the format means, and elsewhere the format gives no meaning
  (`PefPatternScript.ScriptIsUnpack`); there it may agree with the decoder by accident
  (`CutShortAgrees`).
* Prime reports the requested count even when the read was clipped to the volume
  or there was no buffer (`EmulDisk.CountIsExact` says exactly when the count is right).
* The HFS reader takes an overflow record that starts at or below the blocks read so
  far, where its comment says the start lines up with them; the Python reader does
  the same, so the model follows the code.
* The Python reader asks for the whole of each extent, up to the end of the file, and
  gets nothing for a range that runs past the image. A shorter read by the boot loader
  may succeed where it returns nothing (`HfsReference.ReadersPart`). The two agree if
  the extent the read stops in is all there, and for files whose extents do not
  overlap only then (`HfsReference.StopExactly`).
* The `rlwimi` sweep also removes the insertion of r29 into itself without rotation,
  which cannot change the bit. That instruction changes no register at all, so
  nothing is lost (`RomSweep.SelfCopyIdle`).
* Jump-table rebasing is idempotent for the base the boot loader uses. For bases that
  leave entries looking raw it need not be (`RomJumpTables.RawBaseNotIdempotent`).

## Model

| member | source | states |
|---|---|---|
| PefExec.DecodeFields | src/boot/pef_loader.c:514-692 | every bit-field test and extraction of the interpreter, opcode group by opcode group, agrees with a table of word ranges |
| PefExec.Relocator.ExecRange | src/boot/pef_loader.c:519-698 | the recursive interpreter terminates on every stream and does exactly what the fold of the repeat-free unrolled instruction list does: result, position, import index and bytes, for wrapping block starts too |
| PefExec.Relocator.ExecRepeat | src/boot/pef_loader.c:638-679 | a repeat carries out its block the stated number of times, nested repeats included, and stops at the first failure |
| PefExec.Relocator.ExecInstr | src/boot/pef_loader.c:525-696 | one instruction, a repeat with its whole block, has the effect and the size of its unrolled instructions |
| PefExec.Relocator.PatchRun | src/boot/pef_loader.c:530-606 | a run patches its items in order up to the first that leaves the buffer, and fails exactly if one does |
| PefExec.Relocator.ExecRun | src/boot/pef_loader.c:530-607 | skip, patch and advance of the run instructions, with no advance after a failure |
| PefExec.Relocator.ExecSmIndex | src/boot/pef_loader.c:608-634 | the small index group, with 0x26 to 0x2F acting as SmBySection |
| PefExec.Relocator.ExecLong | src/boot/pef_loader.c:635-692 | the position, two-word and unassigned codes |
| PefTrace.TraceAppend | src/boot/pef_loader.c:524-697 | running two instruction lists in a row is running the second from where the first stopped, unless the first failed |
| PefMeaning.BySectionAdds | src/boot/pef_loader.c:608-692 | a stream of one by-section code, by any of its encodings, adds the base of the section it names to the word at the position, changes no other byte, and moves 4 on; it fails if the word does not fit |
| PefMeaning.ByImportAdds | src/boot/pef_loader.c:608-667 | the same for an import's address, with the import index going to the next |
| PefMeaning.RunAdds | src/boot/pef_loader.c:530-607 | a skip-and-run code or a run of kind 0 to 5: each word of each item has exactly its base or import added, nothing else changes, and position and import index move by the items; it succeeds exactly if they fit |
| PefMeaning.IncrMoves | src/boot/pef_loader.c:635-637 | an increment moves by its amount and patches nothing |
| PefMeaning.PositionMoves | src/boot/pef_loader.c:650-654 | a set-position goes to its offset in the section |
| PefMeaning.SelectionsStay | src/boot/pef_loader.c:619-625 | the SetSect codes do nothing |
| PefMeaning.Unassigned | src/boot/pef_loader.c:693-695 | the unassigned codes fail with nothing patched |
| PefMeaning.IndexTooLarge | src/boot/pef_loader.c:655-692 | the two-word forms refuse an import index of 2^20 and a section index of 64 |
| PefMeaning.RepeatsBlock | src/boot/pef_loader.c:638-679 | a repeat behind a block of whole instructions carries the block out as many times again as its code says |
| PefMeaning.RepeatsNothing | src/boot/pef_loader.c:638-679 | a repeat that reaches back before the stream carries out nothing |
| PefTrace.TraceWithin | src/boot/pef_loader.c:534-688 | no stream whatsoever makes the relocator patch outside the section |
| PefTrace.PatchAppend | src/boot/pef_loader.c:519-698 | patches compose |
| PefAlgebra.SwapPatch | src/boot/pef_loader.c:537-688 | a patch commutes with every list of patches that does not overlap it partly |
| PefAlgebra.PatchAdditive | src/boot/pef_loader.c:537-688 | patching by A and then by B is patching by A + B modulo 2^32 |
| PefAlgebra.PatchUndone | src/boot/pef_loader.c:537-688 | patching by the negated bases restores every byte |
| PefAlgebra.PatchedWord | src/boot/pef_loader.c:537-688 | a word ends as its old value plus the sum of all bases patched into it |
| PefAlgebra.PatchFrame | src/boot/pef_loader.c:537-688 | bytes under no patch keep their value |
| PefAlgebra.AlignedTrace | src/boot/pef_loader.c:530-692 | streams that move by multiples of 4 patch only positions that are multiples of 4 |
| PefSection.PefRelocateSection | src/boot/pef_loader.c:700-734 | the headers of the section are applied in order, each from its default address; the first failure ends the section; a section not instantiated is refused untouched |
| PefSection.HeaderBytes | src/boot/pef_loader.c:710-733 | section index, count, offset and instruction words of a relocation header, by their places in the file |
| PefSection.RelocationAdditive | src/boot/pef_loader.c:700-734 | relocating a section by A and then by B equals relocating it by A + B, for aligned streams with any repeats |
| PefSection.RelocationUndone | src/boot/pef_loader.c:700-734 | relocating by the negated bases gives the section back byte for byte |
| PefOverlap.AdditiveExactly | src/boot/pef_loader.c:537-688 | a list of patches inside the section that patches no position twice is additive, for all bases and images, exactly if no two of its words overlap partly |
| PefOverlap.TwoPatchesExactly | src/boot/pef_loader.c:537-688 | two patches at any positions are additive exactly if they are of one word or share no byte |
| PefOverlap.SectionAdditiveExactly | src/boot/pef_loader.c:700-734 | the same condition for everything the headers of a section do |
| PefOverlap.OverlapNotAdditive | src/boot/pef_loader.c:530-654 | a chunk stream of four words that succeeds and is not additive, on every section it fits |
| PefOverlap.StraddleMayCancel | src/boot/pef_loader.c:638-679 | with positions patched repeatedly, partial overlap does not always show: 2^32 repetitions cancel |
| PefOverlap.UniformRun | src/boot/pef_loader.c:537-688 | what a list of patches with one value leaves of two overlapping words depends on the patches of those two alone |
| PefCarry.LowPatch | src/boot/pef_loader.c:537-537 | adding to the lower of two overlapping words, seen from both |
| PefCarry.HighPatch | src/boot/pef_loader.c:537-537 | adding to the upper one, seen from both: its carry out is lost to the other |
| PefCarry.CarriesShow | src/boot/pef_loader.c:537-537 | for every overlap and either order there are bytes on which adding 1 twice and adding 2 differ |
| PefPlace.PefFragment.PefPlaceFragment | src/boot/pef_loader.c:430-461 | the section bases written, the slots left alone, and the TOC from the init vector |
| PefPlace.PlacementSound | src/boot/pef_loader.c:434-451 | when no cursor wraps each section is aligned and inside its area, and sections of one area are disjoint |
| PefPlace.PlacedByKind | src/boot/pef_loader.c:436-450 | by kind number: 0 and 6 lie in the code area, 1 to 3 in the data area, on a multiple of their alignment; the others have base 0 |
| PefPlace.PlacedTightly | src/boot/pef_loader.c:436-450 | a section starts less than its alignment behind the one before it in its area |
| PefPlace.EnoughExactly | src/boot/pef_loader.c:434-451 | no cursor wraps exactly if both areas, laid out without a limit, end below 2^32 |
| PefPlace.SectionsDisjoint | src/boot/pef_loader.c:434-451 | when one area ends before the other begins all instantiated sections are pairwise disjoint |
| PefPlace.TocAfterRelocation | src/boot/pef_loader.c:452-460 | the TOC read from the unrelocated init vector is the word that vector holds after the section is relocated, if one data patch covers it |
| PefReference.RunRelocs | tool_scripts/pef_reloc.py:108-208 | the decoding loop yields the event list of the stream, the second word of a long code being read from the file even past the stream's end |
| PefReference.EventTable | tool_scripts/pef_reloc.py:118-207 | the events, moves and sizes of all codes by ranges of the word, the only listed and the unknown ones included |
| PefReference.SecondWord | tool_scripts/pef_reloc.py:174-194 | two-word codes take the two bytes that follow in the file, and an error ends the decoding where there are none |
| PefApply.ApplyRelocs | tool_scripts/pef_run.py:17-69 | the patching loop carries out the events in order, with the sections the SetSect events select |
| PefApply.ApplyIsPatch | tool_scripts/pef_run.py:17-69 | without selections that is the list of patches the events stand for |
| PefReference.DecodedPair | tool_scripts/pef_reloc.py:118-207 | one word, decoded by either program, means the same instruction, move and size |
| PefReference.OnePassIsTwoPhase | tool_scripts/pef_run.py:17-69 | on every shared stream whose items fit, the C relocator makes exactly the patches of the decoded events, in the same order |
| PefReference.OnePassFitsOnly | src/boot/pef_loader.c:519-698 | conversely the C relocator succeeds only if every item, padding included, fits |
| PefApply.SameImage | tool_scripts/pef_run.py:17-69 | on such streams the two relocators leave the same bytes, for all bases and images |
| PefReference.PaddingDiffers | src/boot/pef_loader.c:563-573 | a one-word stream on which the two relocators differ |
| PefPattern.PefVarCount | src/boot/pef_loader.c:294-306 | the 32-bit accumulation is the unbounded number modulo 2^32, and fails exactly at the end of input |
| PefPattern.PefExpandOne | src/boot/pef_loader.c:308-387 | the in-place decoder computes the bounded expansion, reports its failures and leaves the rest of the destination alone |
| PefPattern.ChecksExact | src/boot/pef_loader.c:326-373 | the bounds checks, in 32- and 64-bit arithmetic, refuse exactly the instructions that would overrun source or destination |
| PefPattern.ChecksAgree | src/boot/pef_loader.c:335-341 | and do so except for a repeat count of 2^32 - 1 on a non-empty block: an exact condition |
| PefPatternReference.ExpandIsUnpack | src/boot/pef_loader.c:308-387 | with 32-bit arguments the decoder finishes exactly when the section has a meaning in the format (numbers and payloads inside it), that fits and no repeat is endless, and then with that meaning |
| PefPatternReference.ExpandIsReference | src/boot/pef_loader.c:308-387 | with arguments of any size the decoder finishes with the meaning of the section exactly when there is one, it fits and no repeat is endless |
| PefPatternReference.FinishedRight | src/boot/pef_loader.c:308-387 | what the decoder finishes with is the meaning of the section exactly if every instruction it carried out is harmless, a condition on the instruction's arguments alone |
| PefPatternReference.HarmfulFails | src/boot/pef_loader.c:294-306 | a section with a harmful instruction has no meaning that fits from there on |
| PefPatternScript.UnpackPattern | tool_scripts/pef_pattern.py:20-83 | the script's loops, with numbers read from the whole file, slices cut short at its end, and the final size comparison |
| PefPatternScript.ScriptIsUnpack | tool_scripts/pef_pattern.py:37-83 | on a section that contains its numbers and payloads the script gives what the format means; any other section has no meaning |
| PefPatternScript.FinishedIsScript | tool_scripts/pef_pattern.py:37-83 | on such a section of a file, what the decoder finishes with is what the script returns exactly if every instruction it carried out is harmless |
| PefPatternScript.CutShortAgrees | tool_scripts/pef_pattern.py:49-52 | on another section the two agree although the instruction is harmful: the script's slice is cut short at the end of the file |
| PefPatternReference.EndlessExactly | src/boot/pef_loader.c:335-346 | the decoder runs forever exactly if it carries out a repeat of 2^32 - 1 |
| PefPatternReference.WideCountDiffers | src/boot/pef_loader.c:294-306 | a harmful stream: its count wraps, and it is accepted with no output where the reference gives 2^32 bytes |
| PefPatternReference.UnpackExtends | tool_scripts/pef_pattern.py:37-83 | expansion never retracts output |
| PefPatternReference.UnpackConcat | tool_scripts/pef_pattern.py:37-83 | two streams in a row expand to their expansions in a row |
| PefPatternCode.NumberRead | tool_scripts/pef_pattern.py:20-28 | every number, assembled in 7-bit groups, is read back |
| PefPatternCode.EncodeRoundTrip | tool_scripts/pef_pattern.py:37-83 | every list of instructions, once assembled, expands to the outputs of the instructions; by the decoder too, when they fit, exactly if none repeats 2^32 times |
| Lzss.MaskFull | src/boot/bootloader_impl.c:1188-1191 | a fresh run mask stands for eight flags |
| Lzss.MaskShift | src/boot/bootloader_impl.c:1188-1215 | each shift uses up one flag: the mask is below 0x100 exactly when all eight are used |
| Lzss.RingPut | src/boot/bootloader_impl.c:1195-1212 | the ring always is zeros overlaid with the output: each cell holds the output byte 1 to 4096 places back |
| Lzss.CopyRun | src/boot/bootloader_impl.c:1205-1213 | a run out of the ring, overlapping or wrapping, is a copy from the output history |
| Lzss.BootLzssDecode | src/boot/bootloader_impl.c:1173-1217 | the destination receives the history expansion of the source, cut to its size, and nothing else changes |
| Lzss.ScriptDecode | tool_scripts/decoderom.py:29-55 | the script, with its different end-of-input test, gives the same expansion |
| Lzss.ExpandGrows | src/boot/bootloader_impl.c:1187-1216 | output is only appended, at most nine bytes for each byte read |
| Lzss.ExpandPrefix | src/boot/bootloader_impl.c:1187-1216 | a truncated source expands to a prefix |
| Lzss.CellDistance | src/boot/bootloader_impl.c:1205-1211 | ring cells and distances 1 to 4096 determine each other |
| Lzss.CellNumbers | src/boot/bootloader_impl.c:1183-1211 | the first byte goes to cell 0xFEE: after n bytes the cell of byte j is n - j back |
| Lzss.KnownStream | src/boot/bootloader_impl.c:1187-1216 | a literal and an overlapping run, decoded |
| Lzss.EncodeRoundTrip | src/boot/bootloader_impl.c:1173-1217 | every list of literals and runs, encoded in groups of eight with ring cells counted from 0xFEE, decodes to its meaning |
| Lzss.LiteralsRoundTrip | src/boot/bootloader_impl.c:1173-1217 | every byte string is the expansion of some stream |
| Parcels.BootDecodeParcels | src/boot/bootloader_impl.c:1222-1272 | the walk ends on every image; it succeeds exactly when a 'rom ' parcel is found, and then expands precisely that slice |
| Parcels.ParcelBytes | src/boot/bootloader_impl.c:1234-1268 | container, links and 'rom ' parcels by their bytes |
| Parcels.WalkIsChain | src/boot/bootloader_impl.c:1238-1269 | a parcel is found exactly if a chain of good links from the first offset ends at it and it is well formed |
| Parcels.ChainIncreases | src/boot/bootloader_impl.c:1265-1268 | offsets along a chain strictly increase and stay inside the image |
| RomJumpTables.RomRelocateJumpTables | src/boot/bootloader_impl.c:2164-2217 | the in-place scan, run and padding loops compute the pass |
| RomJumpTables.RelocateTable | src/boot/bootloader_impl.c:2183-2209 | the walk of one table |
| RomJumpTables.RomBaseSafe | src/boot/bootloader.h:126-126 | the base the loader uses cannot make a header, a raw entry, padding or a table mark |
| RomJumpTables.PassSettles | src/boot/bootloader_impl.c:2164-2217 | only first halfwords of raw entries change, each at most once, to their rebased value |
| RomJumpTables.HeadersKept | src/boot/bootloader_impl.c:2169-2180 | the pass neither destroys nor creates a header |
| RomJumpTables.WalkQuiet | src/boot/bootloader_impl.c:2183-2209 | walking a table again in any later state of the image changes nothing |
| RomJumpTables.PassIdempotent | src/boot/bootloader_impl.c:2164-2217 | a second pass changes nothing, on every image, however tables overlap |
| RomJumpEntries.PassExactly | src/boot/bootloader_impl.c:2164-2217 | the in-place pass, overlapping tables included, rebases exactly the entries that the headers of the original image list, followed through runs, padding and table marks, and changes no other halfword |
| RomJumpEntries.PassKeepsLast | src/boot/bootloader_impl.c:2178-2180 | the odd last byte of an image stays as it is |
| RomJumpEntries.WalkCloses | src/boot/bootloader_impl.c:2183-2209 | after each walk, what any rebased entry leads to on the original image is rebased too |
| RomJumpEntries.WalkOnly | src/boot/bootloader_impl.c:2183-2209 | a walk in any state of the image changes only entries it would come to on the original one |
| RomJumpEntries.EveryTableRebased | src/boot/bootloader_impl.c:2187-2196 | in particular every entry of the run behind every header ends up rebased |
| RomJumpTables.RawBaseNotIdempotent | src/boot/bootloader_impl.c:2187-2196 | for every base in the top 16 MB that is no multiple of 4 MB there is an image a second pass changes: the choice of base matters |
| RomSweep.MaskIsInterval | src/boot/bootloader_impl.c:2768-2771 | the wrap-around mask of rlwimi (PowerPC UISA) is the interval, or its wrapped form |
| RomSweep.Assembled | src/boot/bootloader_impl.c:2765-2774 | for every rlwimi assembled from its six fields (PowerPC UISA) the sweep reads those fields, and picks it exactly if it goes to r29 and its mask covers bit 11 |
| RomSweep.OtherOpcodes | src/boot/bootloader_impl.c:2772-2772 | no word with another primary opcode is picked |
| RomSweep.TestIsExact | src/boot/bootloader_impl.c:2768-2774 | on a file of 32 registers, the sweep's test holds, and the word does not insert r29 unrotated into itself, exactly if some register values make the instruction change bit 20 of r29 |
| RomSweep.SelfCopyIdle | src/boot/bootloader_impl.c:2768-2774 | that self-insertion changes no register |
| RomSweep.SweepRlwimi | src/boot/bootloader_impl.c:2762-2780 | exactly the matching words of the region become no-operations |
| RomSweep.SweepSound | src/boot/bootloader_impl.c:2762-2780 | afterwards no rlwimi into r29 in the region can change bit 20, and the only words gone are those that could and self-insertions that change nothing |
| RomSweep.SweepKeeps | src/boot/bootloader_impl.c:2764-2764 | no byte outside 0x360000 to 0x37FFFF changes |
| HfsDevice.BlockDevice.HfsDeviceReadBytes | src/fs/hfs.c:124-160 | aligned or not, a successful read is exactly that byte range; it succeeds on every range inside a healthy device with memory for the scratch buffer; each error has its condition and leaves the buffer alone |
| HfsDevice.BlocksInside | src/fs/hfs.c:141-145 | the blocks read for a range inside the device are inside it |
| HfsDevice.BlockRange | src/fs/hfs.c:141-144 | the whole blocks read cover the range |
| HfsOverflow.OverflowTable.HfsOvfSort | src/fs/hfs.c:473-484 | the in-place shifting sort is repeated insertion behind equal keys, and leaves the unused records |
| HfsOverflow.SortIsPermutation | src/fs/hfs.c:458-484 | the result is sorted by file and first block, and no record is lost or doubled |
| HfsOverflow.SortedMeans | src/fs/hfs.c:458-470 | sorted is by file number, and within a file by first block |
| HfsOverflow.DistinctMeans | src/fs/hfs.c:458-470 | keys are distinct if no two records share file number and first block |
| HfsOverflow.FirstAreFirst | src/fs/hfs.c:580-594 | the table takes the first 512 data-fork records |
| HfsOverflow.DataMeans | src/fs/hfs.c:580-582 | the data-fork records are those of fork type 0 |
| HfsOverflow.OverflowTable.Build | src/fs/hfs.c:559-596 | the table holds, sorted, the first 512 data-fork records |
| HfsOverflow.FileRecords | tools/hfs_read.py:128-143 | picking one file from the sorted table gives the list the Python reader sorts per file, whatever the order of the records |
| HfsRead.Reader.DrainExtents | src/fs/hfs.c:1259-1281 | the extent loop reads what the extent list owes, and on a sound device stops early only where the media ends |
| HfsRead.Reader.NextRecord | src/fs/hfs.c:1286-1306 | the next record of the file is found and its used extents taken; without one the file is short |
| HfsRead.Reader.HfsReadFileClassic | src/fs/hfs.c:1237-1312 | a successful read is the first min(size, capacity) bytes of the file's extents, catalog and overflow, each the device byte its block maps to; on a sound device it succeeds exactly if they hold that many, and otherwise reports end of media |
| HfsRead.Reader.PpcHfsReadFile | src/fs/hfs.c:1347-1378 | status and returned size, the too-small buffer included; on a sound device the status is a function of the file and the capacity |
| HfsRead.GatherIsMap | src/fs/hfs.c:1258-1281 | byte i of a complete read is the device byte at start of the allocation blocks + block of i / size * size + i % size |
| HfsRead.ChainExactly | src/fs/hfs.c:1286-1306 | the overflow extents of a file are the used extents of its records up to the first that starts beyond the blocks before it |
| HfsRead.UnusedHoldNothing | src/fs/hfs.c:1297-1303 | leaving out unused extents changes no byte |
| HfsRead.GatherComplete | src/fs/hfs.c:1258-1281 | with enough blocks, all on the device, nothing is missing |
| HfsReference.RefReadFile | tools/hfs_read.py:145-165 | the Python reader gathers the same extents, each cut to the rest of the file; a range that runs past the image counts but gives no bytes |
| HfsReference.SameExtents | tools/hfs_read.py:128-165 | the sorted shared table and the per-file list give a file the same extents, for distinct keys in any order |
| HfsReference.ReadIsReference | tools/hfs_read.py:128-165 | from the leaf records to the bytes: a complete read through the table built from them is the first bytes of what the Python reader returns if the extent it stops in is all on the device, as it is when the extents hold the whole file |
| HfsReference.StopExactly | tools/hfs_read.py:151-157 | for files whose extents do not overlap that condition is exact: without it some device content shows the difference |
| HfsReference.ReadersPart | tools/hfs_read.py:38-42 | a file and a read on which the two readers part, on every device of that size |
| BootStaging.Area.ReadFileInto | src/boot/bootloader_impl.c:163-193 | chunked reading of a file without read errors succeeds; success puts the head of the file in place, and nothing below the cursor is written |
| BootStaging.Area.BootStageFile | src/boot/bootloader_impl.c:492-551 | a file is added behind the earlier ones or nothing is; a file that exists, fits and can be read is staged; earlier files keep their bytes |
| BootStaging.Area.BootStageHfsFile | src/boot/bootloader_impl.c:555-601 | the same for a file of the HFS volume, staged as its content and zeros; on a mounted volume and a sound device it fails only if the content is short |
| BootStaging.StillIntact | src/boot/bootloader_impl.c:3540-3561 | writes from the cursor on, as of a failed call, reach no staged file |
| BootStaging.FilesDisjoint | src/boot/bootloader_impl.c:516-548 | staged files are 16-byte aligned and pairwise disjoint |
| BootStaging.FileInside | src/boot/bootloader_impl.c:516-522 | staged files lie inside the area, below the cursor |
| BootStaging.ListedWithinRoom | src/boot/bootloader_impl.c:547-548 | the total of staged sizes never exceeds the room taken |
| BootStaging.TotalWithin | src/boot/bootloader_impl.c:547-548 | the running total never exceeds how far the cursor has moved |
| EmulTime.EmulClock.AdvanceClock | src/cpu/emul_op.c:89-109 | both catch-up loops and their flags |
| EmulTime.EmulClock.TimerInsert | src/cpu/emul_op.c:150-169 | queue once, in the first free slot, or report a full queue |
| EmulTime.EmulClock.TimerRemove | src/cpu/emul_op.c:172-185 | disarm, keep the slot, report whether it was armed |
| EmulTime.EmulClock.PrimeTime | src/cpu/emul_op.c:591-605 | arm a queued task, or report that it is not queued |
| EmulTime.EmulClock.PopDueTimer | src/cpu/emul_op.c:130-147 | take the first due task |
| EmulTime.EmulClock.ResetAll | src/cpu/emul_op.c:658-663 | free all slots and drop all flags |
| EmulTime.EmulClock.SignalInterrupt | src/cpu/emul_op.c:121-127 | raise flags, keep those pending |
| EmulTime.EmulClock.GetAndClearInterruptFlags | src/cpu/emul_op.c:111-119 | hand over the pending flags and clear them |
| EmulRuns.ClockDrift | src/cpu/emul_op.c:93-93 | after k advances of N instructions in all, N - 199k <= 200 micros <= N |
| EmulRuns.TicksOnGrid | src/cpu/emul_op.c:95-108 | in every run the next tick is on the grid fixed by the first advance and within one period after the clock |
| EmulRuns.ViaRaised | src/cpu/emul_op.c:95-101 | an advance raises VIA exactly if it crosses a grid point |
| EmulRuns.AdbRaised | src/cpu/emul_op.c:102-108 | the same for the keyboard and mouse poll |
| EmulQueue.QueueWellFormed | src/cpu/emul_op.c:150-169 | in every run queued tasks are distinct and fill a prefix of the slots |
| EmulQueue.LiveMeans | src/cpu/emul_op.c:130-185 | what a live prime is, by the history alone: not renewed, removed, popped or reset since |
| EmulQueue.SlotsAreHistory | src/cpu/emul_op.c:130-185 | in every run a task is armed exactly if a prime of it is live, with that prime's due time |
| EmulQueue.PopIsDue | src/cpu/emul_op.c:130-147 | a pop returns only a task whose live prime has fallen due, and 0 only if there is none |
| EmulQueue.DrainsAll | src/cpu/emul_op.c:130-147 | popping until 0 returns every due task exactly once |
| EmulHistory.SlotsAreQueue | src/cpu/emul_op.c:150-169 | in every run the slots hold the tasks inserted since the last reset, in order, at most 48 and each once |
| EmulHistory.QueuedByHistory | src/cpu/emul_op.c:150-169 | a task is in a slot exactly if some insert of it was answered 0 with no reset since |
| EmulHistory.InsertAnswers | src/cpu/emul_op.c:582-584 | insert answers 0 if the task is queued or fewer than 48 are, and -90 otherwise |
| EmulHistory.PrimeAnswers | src/cpu/emul_op.c:591-605 | prime answers 0 if the task is queued, and -91 otherwise |
| EmulHistory.RemoveAnswers | src/cpu/emul_op.c:172-185 | remove answers 1 if a prime of the task is live, and 0 otherwise |
| EmulHistory.PopAnswers | src/cpu/emul_op.c:130-147 | pop answers with the due task that was queued first, and 0 exactly if none is due |
| EmulHistory.FlagsAreHistory | src/cpu/emul_op.c:89-127 | a flag is pending exactly if it was signalled or a tick raised it, and it was not handed over or reset since |
| EmulDisk.EmulDiskPrimeTransfer | src/cpu/emul_op.c:240-333 | result codes; a successful read leaves the clipped device bytes in the guest buffer, the count in ioActCount and nothing else changed; on a healthy device it succeeds exactly if no bytes are to be copied, or the clipped range is on the media and blocks hold at most 2048 bytes |
| EmulDisk.DeliveredBytes | src/cpu/emul_op.c:248-331 | what a successful read leaves, byte by byte, from the bytes of the parameter block: offset rounded down to 256, clipping, count |
| EmulDisk.FieldBytes | src/cpu/emul_op.c:248-291 | buffer, count and position by the bytes of the parameter block |
| EmulDisk.ReadableMeans | src/cpu/emul_op.c:306-319 | when a range can be read: nothing is asked for, or blocks hold at most 2048 bytes and the range is on the media |
| EmulDisk.CopyBlocks | src/cpu/emul_op.c:305-330 | block-by-block copying places exactly the requested byte range, and on a healthy device does so whenever the range can be read |
| EmulDisk.CountIsExact | src/cpu/emul_op.c:296-331 | the reported count is the copied count exactly if the request is empty, wholly past the volume, or unclipped with a buffer |

## Left out

* Container parsing, library and symbol names, exports and the enumeration of fragments (`src/boot/pef_loader.c:48-290`, `:389-425`, `:463-500`): table look-ups.
* The relocation log and every `Print`: output only.
* Section and import indices of a stream are required to be valid (`Resolves`), as the C code does not check them; `secBase` has 16 slots there.
* The import index is unbounded; the C `int` could wrap only after 2^31 imports.
- PefPlace.PefFragment.PefPlaceFragment: requires at most 16 sections and an init vector inside its image, which the C code does not check either.
- PefOverlap.AdditiveExactly: for lists that patch a position more than once no exact condition is given; absence of partial overlap is enough there, and not needed, since repeated patches can cancel.
- PefReference.OnePassIsTwoPhase: is stated for default address 0 and for streams without repeats, SetSect and BySection codes, to which the two programs give different meanings, and with the last two-word code complete.
- PefReference.RunRelocs: symbol names are left out of the events, and with them the error the script raises for an import without a symbol.
- PefApply.ApplyRelocs: requires the events' words to lie inside the buffer and their imports to have addresses; the script raises an error otherwise.
- PefPattern.PefExpandOne: requires that no repeat of 2^32 - 1 is carried out, whose loop does not end, and that source and destination together are shorter than 2^32 bytes.
- PefPatternReference.ExpandIsUnpack: speaks of the meaning the format gives a section, none if a number or payload runs past it, and not of the script there, which reads on or cuts short.
- PefPatternReference.ExpandIsReference: the same.
- PefPatternReference.FinishedRight: the same.
- PefPatternReference.HarmfulFails: the same; the script can get past a harmful instruction that it cuts short.
- HfsReference.StopExactly: is stated for extents that do not overlap; where they do, later extents can happen to supply the missing bytes.
* The decoded ROM container around the parcels (`src/boot/bootloader_impl.c:1274-1400`) and the script's own parcel walk.
- RomJumpTables.PassIdempotent: is stated for bases that cannot imitate a mark the pass looks for, the one in use among them; which other bases would also do is not characterised.
- RomJumpTables.RomRelocateJumpTables: requires an image of at most 2^32 - 5 bytes, beyond which the 32-bit offsets wrap; a ROM has 4 MB.
- RomJumpTables.RelocateTable: requires the same.
* The rest of the ROM patching: constants written to fixed addresses.
* B-tree nodes, catalog parsing and the HFS+ reader (`src/fs/hfs.c:487-555`, `:605-1230`, `:1316-1342`): the overflow build starts from the leaf records.
* Extent lists are sequences; the C code shifts an array of at most eight pairs. Block numbers and sizes do not wrap at 2^64.
- HfsRead.Reader.HfsReadFileClassic: requires that the catalog's extents are not empty, which its builder ensures; a failing read leaves the buffer unspecified.
- BootStaging.Area.BootStageFile: file sizes near 2^64, whose rounding to 16 would wrap, are not modelled; a file that ends early leaves its room partly unwritten, as in the code.
- BootStaging.Area.BootStageHfsFile: the reader fills a scratch array that stands for its part of the area.
* The clock, due times and tick times are unbounded, not 64-bit; flags are sets of bit numbers.
- EmulDisk.EmulDiskPrimeTransfer: requires that the bytes to be copied fit the guest's memory without wrapping; a block size of 0, which the code reads as 512, is left to the caller; after a read error the guest buffer is unspecified.
* Guest memory is one byte array. Devices are byte sequences: reads of a healthy one succeed, reads of another may fail at any time; short memory may make a scratch allocation fail.
* The interpreters, the MMU, UEFI services, the setup menu, the framebuffer and the remaining device stubs.
