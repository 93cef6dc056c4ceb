# PayloadLoaderPayload, modelled in Dafny

PayloadLoaderPayload is a chain-loader for the Wii U. It does the following, in order:

1. It points syscall 0x36 of the five kernel syscall tables at its own assembly routine `KernelPatches` and runs it.
2. It reads the gamepad. If B is held or pressed, it shows a menu of the payloads found under `wiiu/payloads` on the SD card; otherwise it takes `wiiu/payloads/default/payload.elf`.
3. It reads that ELF file into a heap buffer and checks that `.text`, `.rodata`, `.data` and `.bss` fit the window `[0x00800000, 0x00FD0000]`.
4. It copies the sections to their link addresses and flushes the data cache and invalidates the instruction cache over each copied range.
5. It points the five syscall slots at `KernelPatchesRevertHook`, runs syscall 0x36 again, and jumps to the ELF's entry point if there is one.

The model has seven modules, one file each:

| file | module | models |
|---|---|---|
| `words.dfy` | `Words` | uint32 / int32 arithmetic, big-endian field reads, `Option` |
| `platform.dfy` | `Platform` | the console: a `Console` class holding physical memory (`mem`), kernel words (`kwords`) and the ordered trace of effects (`events`), with `memcpy`, the two cache operations, `kern_write`, `Syscall_0x36` and the jump to an entry point as its methods, and what the syscall's kernel routine does to the kernel words as a parameter (`syscallEffect`); `OSFatal` as the `Halted` outcome |
| `elf.dfy` | `Elf` | `get_section` (a recursive search and the loop method `SearchSections`), `CheckElfSectionLoadedBetween`, `CheckElfLoadedBetween` |
| `elfloader.dfy` | `ElfLoader` | `LoadFileToMem` (the read loop filling an `array`), `InstallMain` (four copy-and-sync blocks on the `Console`), `load_loader_elf_from_sd` |
| `kernel.dfy` | `Kernel` | `doKernelSetup`, `revertKernelHook` |
| `payloads.dfy` | `Payloads` | `readDirFull`, `get_all_payloads` with the `std::map` it fills, `PayloadSelectionScreen` |
| `chainloader.dfy` | `ChainLoader` | `start_wrapper`, `_start` |

Each imperative routine of the source is a method whose `ensures` ties its result and the new `Console` state to a specification function. Examples are `SearchSections` and `GetSection`, `ReadBlocks` and `ReadLoop`, `InstallMain` and `Place`, `StartWrapper` and `Boot`. The properties the source promises are then proved as lemmas about those functions.

Behaviour of the code that is easy to misread, and that the model follows:

- A header that `get_section` rejects calls `OSFatal`; the load does not return 0. The window check reaches `get_section` first, so a corrupt file stops the system.
- A window violation makes `load_loader_elf_from_sd` return 0. It does not stop the system.
- On a fatal path (a bad header, a missing `.text`, or a menu still waiting for A) `revertKernelHook` is never reached. Nothing rewrites the syscall slots after the `KernelPatches` routine has run.
- `revertKernelHook` writes the address of `KernelPatchesRevertHook` into the slots and runs that routine. Nothing in kernel.cpp restores the tables' earlier contents; what the routine does is not modelled, so the model proves only that the revert syscall is issued with the slots holding the revert hook.
- The file buffer is not freed when the window check fails.
- A section counts as absent when its file offset is 0. A present section of size 0 is still "copied", flushed and invalidated, with length 0.
- A missing `.text` passes the window check. Only `InstallMain` finds it fatal.
- `.bss` is copied from the file like the other sections.
- `_start` returns -1 when the entry point is 0, including an ELF that loaded and whose `e_entry` is 0.

The model also relies on these assumptions about code that is not part of this model:

- `KERN_SYSCALL_TBL_1` .. `_5` (from `kernel.h`) are 0xFFE84C70, 0xFFE85070, 0xFFE85470, 0xFFEAAA60 and 0xFFEAAE60.
- The VPAD button values are A = 0x8000, B = 0x4000, UP = 0x0200 and DOWN = 0x0100.
- `StringTools::EndsWith` is the suffix test.
- `StringTools::stringSplit(s, "/")` splits at every '/' and keeps empty pieces.
- `strfmt("%s/%s", a, b)` is `a + "/" + b`.
- `std::string` `<` is lexicographic order on characters.

## Model

| member | source | states |
|---|---|---|
| Platform.Console.Memcpy | src/utils/ElfUtils.c:168 | memory becomes `Copy(old mem, dst, src)`; the kernel words and the trace are unchanged |
| Platform.CopyWrites | src/utils/ElfUtils.c:168 | after a memcpy, byte `a` of the destination holds `src[a - dst]` |
| Platform.CopyKeeps | src/utils/ElfUtils.c:168 | a memcpy leaves every address outside the destination range as it was |
| Platform.Console.DCFlushRange | src/utils/ElfUtils.c:169 | appends exactly one `DCFlush(addr, len)` event and changes no memory |
| Platform.Console.ICInvalidateRange | src/utils/ElfUtils.c:170 | appends exactly one `ICInvalidate(addr, len)` event and changes no memory |
| Platform.Console.KernWrite | src/kernel.cpp:55-74 | updates exactly the kernel word `addr` to `value` and records the store; physical memory is unchanged |
| Platform.Console.Syscall0x36 | src/kernel.cpp:41 | records one syscall 0x36; the kernel words become what the routine makes of the words it is issued with (`syscallEffect`); physical memory is unchanged |
| Platform.Console.CallEntry | src/main.cpp:92 | records the jump to `entry` with the given argc and argv and the kernel words the payload starts with; nothing is promised about memory after the payload has run |
| Elf.TableAt | src/utils/ElfUtils.c:134 | `shdr[i]` is the header decoded at `e_shoff + 40 * i` |
| Elf.Accepted | src/utils/ElfUtils.c:130 | the header test of get_section: the ELF magic, type `ET_EXEC` and machine `EM_PPC`, read big-endian from the header |
| Elf.NameIs | src/utils/ElfUtils.c:137-138 | the `strcmp` of a section name in `.shstrtab` with `name`: the bytes at `p` are `name` followed by a NUL, all inside the buffer |
| Elf.Matches | src/utils/ElfUtils.c:137-138 | header `i` is named `name`: the name at `sh_name` of `.shstrtab` (header `e_shstrndx`) equals `name` |
| Elf.FindFrom | src/utils/ElfUtils.c:136-147 | a found index lies between the start and `e_shnum` |
| Elf.FindFromSpec | src/utils/ElfUtils.c:134-147 | the search finds the lowest-index header whose `.shstrtab` name is `name`, and finds nothing only when no header has that name |
| Elf.GetSection | src/utils/ElfUtils.c:127-154 | it is fatal with "Invalid elf file" exactly when the magic, `ET_EXEC` or `EM_PPC` test fails |
| Elf.GetSectionSpec | src/utils/ElfUtils.c:134-153 | on an accepted header: a returned section is the first match; "return 0" happens exactly when nothing matches and `fail_on_not_found` is 0; a fatal stop happens exactly when nothing matches and it is 1 |
| Elf.GetSectionPresent | src/utils/ElfUtils.c:163-166 | with an offset-0 result discarded, what get_section returns is the section the loader copies; it halts exactly when a required name is missing |
| Elf.Present | src/utils/ElfUtils.c:163-166 | the section the loader checks and copies: the first header with that name when its file offset is non-zero, and absent otherwise |
| Elf.SearchSections | src/utils/ElfUtils.c:127-154 | the loop over the section headers returns what `GetSection` specifies |
| Elf.CheckSection | src/utils/ElfUtils.c:95-105 | is fatal on a rejected header, otherwise true exactly when the section is absent or fits the window |
| Elf.CheckLoadedBetween | src/utils/ElfUtils.c:107-125 | is fatal exactly on a rejected header, and true exactly when all four sections fit |
| Elf.AllFitFour | src/utils/ElfUtils.c:107-125 | "all fit" is the conjunction of the four checks in the order `.text`, `.rodata`, `.data`, `.bss` |
| Elf.WindowContainment | src/utils/ElfUtils.c:99 | for a non-empty range the intended check holds exactly when every byte of the range lies in `[start, end)` |
| Elf.InWindowAsWritten | src/utils/ElfUtils.c:99 | the window test as written, with `target_addr + len` taken modulo 2^32 |
| Elf.InWindow | src/utils/ElfUtils.c:99 | the intended window test, the corrected half of the ElfUtils.c:99 finding: the start is at least the window start and `addr + len`, taken without wrap-around, is at most the window end |
| Elf.WindowBoundsInclusive | src/utils/ElfUtils.c:99 | a range starting at `start` and ending at `end` passes; one byte lower or one byte longer fails |
| Elf.WindowChecksAgree | src/utils/ElfUtils.c:99 | when `addr + len` does not overflow, the check as written and the intended one agree |
| Elf.WindowCheckWraps | src/utils/ElfUtils.c:99 | a range whose end wraps past 2^32 to a point inside the window passes the check as written, fails the intended one, and covers 0xFFFFFFFF |
| Elf.WindowCheckWrapsExample | src/utils/ElfUtils.c:99 | a 64 KiB `.text` at 0xFFFF0000 has a 32-bit end of 0, so it is accepted as written and rejected as intended, although all its target bytes lie above the window and inside the address space |
| ElfLoader.AllocSizeAsWritten | src/utils/ElfUtils.c:30 | the rounded size is a multiple of 0x40, and lies in `[filesize, filesize + 0x40)` whenever `filesize <= 0xFFFFFFC0` |
| ElfLoader.AllocSizeAsWrittenWraps | src/utils/ElfUtils.c:30 | for `filesize > 0xFFFFFFC0` the rounded size is 0 |
| ElfLoader.AllocSize | src/utils/ElfUtils.c:30-34 | an allocation size exists exactly when the rounding does not overflow; it is then a multiple of 0x40, at least `filesize` and less than `filesize + 0x40` |
| ElfLoader.ReadCall | src/utils/ElfUtils.c:44 | a `read` never delivers more than asked or more than remains, and delivers something unless its script says it fails |
| ElfLoader.NextBlock | src/utils/ElfUtils.c:41-43 | the block is between 1 byte and the previous block size, and ends at or before the end of the file when the sum cannot wrap |
| ElfLoader.ReadLoop | src/utils/ElfUtils.c:40-48 | the loop never counts past the file size |
| ElfLoader.ReadRequestsBounded | src/utils/ElfUtils.c:40-48 | every request asks for 1 to 0x20000 bytes starting inside the file; for files of at most 2^32 - 0x20000 bytes none reaches past the end |
| ElfLoader.ReadLoopCompletes | src/utils/ElfUtils.c:40-48 | when no read in the script fails, the loop reads the whole file |
| ElfLoader.FirstReadFails | src/utils/ElfUtils.c:44-55 | a failing first read of a non-empty file leaves `done` at 0, so the load fails with -3 |
| ElfLoader.Read | src/utils/ElfUtils.c:44 | the bytes a read delivers land in the buffer at `buffer + done`, and what was already read stays |
| ElfLoader.ReadBlocks | src/utils/ElfUtils.c:36-48 | the loop makes the requests the read-loop function specifies, and the buffer holds the file's first `done` bytes |
| ElfLoader.LoadFileToMem | src/utils/ElfUtils.c:15-66 | -1 with no read for a missing file; -2 with no read when allocation fails; a buffer exactly when every byte arrived, holding the file, with `*size = filesize` and the int32 file size returned; -3 with no buffer exactly when the allocation succeeded but fewer than `filesize` bytes arrived; otherwise NULL, size 0 and -1, -2 or -3 |
| ElfLoader.FileImage | src/utils/ElfUtils.c:77 | the buffer `LoadFileToMem` gives `load_loader_elf_from_sd`: the file's bytes when the file exists, the allocation succeeds, every byte is read and its size is below 2^31 (LoadFileToMem's int32 result is not negative), and nothing otherwise |
| ElfLoader.InstallFrame | src/utils/ElfUtils.c:159-209 | InstallMain leaves every address that no present section covers unchanged |
| ElfLoader.InstallCopies | src/utils/ElfUtils.c:159-209 | after InstallMain, byte `k` of a present section sits at `addr + k` as `data[offset + k]`, unless a later section overwrote that address |
| ElfLoader.TraceOnlyCacheOps | src/utils/ElfUtils.c:169-207 | InstallMain's effects on the trace are cache maintenance only |
| ElfLoader.TraceShape | src/utils/ElfUtils.c:169-207 | for each present section in copy order, a data-cache flush of its range immediately followed by an instruction-cache invalidation of the same range |
| ElfLoader.PlacedArePresent | src/utils/ElfUtils.c:166-202 | the ranges synced are exactly the present sections |
| ElfLoader.WindowImpliesPlaceable | src/utils/ElfUtils.c:81-84 | an image that passed the window check has every target range inside the address space |
| ElfLoader.InstallSection | src/utils/ElfUtils.c:160-171 | one block: fatal on a bad header, or on a missing name when required, with nothing changed; otherwise memcpy of the present section, then its flush and invalidate; kernel words untouched |
| ElfLoader.InstallMain | src/utils/ElfUtils.c:159-209 | returns exactly when the header is accepted and `.text` exists; then memory has the four copies applied in order and the trace has the four cache blocks in order; a fatal stop changes nothing |
| ElfLoader.InstallMainInstalls | src/utils/ElfUtils.c:159-209 | for a checked image the section-by-section memory and trace equal `InstallMem` and `InstallTrace` |
| ElfLoader.InstallMem | src/utils/ElfUtils.c:159-209 | memory after InstallMain: the present sections of `.text`, `.rodata`, `.data`, `.bss` copied from the file in that order, a later copy overwriting an earlier one |
| ElfLoader.InstallTrace | src/utils/ElfUtils.c:159-209 | the cache operations of InstallMain: for each present section in copy order, a flush of its range, then an invalidation of it |
| ElfLoader.LoadElf | src/utils/ElfUtils.c:74-93 | an installed image is a readable, accepted ELF whose sections fit the address space; a fatal stop installs nothing |
| ElfLoader.LoadRejects | src/utils/ElfUtils.c:77-83 | an unreadable file or a failed window check returns 0 and installs nothing; a rejected header is fatal |
| ElfLoader.LoadInstalls | src/utils/ElfUtils.c:84-92 | an image is installed exactly when it was read, accepted, fits the window and has `.text`; it is the file's own bytes, and the result is its `e_entry` |
| ElfLoader.LoadStaysInWindow | src/utils/ElfUtils.c:81-84 | a successful load changes no byte outside `[0x00800000, 0x00FD0000)` |
| ElfLoader.LoadLoaderElf | src/utils/ElfUtils.c:74-93 | returns what `LoadElf` specifies; memory and trace change only by the installed image's copies and cache operations; kernel words untouched |
| Kernel.SlotsDistinct | src/kernel.cpp:35-39 | the five slots are `KERN_SYSCALL_TBL_i + 0xD8` and pairwise different |
| Kernel.Stores | src/kernel.cpp:35-39 | one store per slot, in table order, each of the same value |
| Kernel.Patch | src/kernel.cpp:35-39 | the kernel words after the five `kern_write` calls of one routine, applied in table order |
| Kernel.AfterHook | src/kernel.cpp:34-52 | the kernel words after one routine: its five stores, then the syscall's effect on the words it is issued with |
| Kernel.PatchWrites | src/kernel.cpp:35-39 | every patched slot holds the stored value |
| Kernel.PatchKeeps | src/kernel.cpp:35-39 | every other kernel word is unchanged |
| Kernel.HookEffect | src/kernel.cpp:35-49 | after one routine, the five slots hold its value and every other word is as before |
| Kernel.HookTraceShape | src/kernel.cpp:34-52 | six events: the five stores in table order, then syscall 0x36 exactly once, after all of them |
| Kernel.LastWriteWins | src/kernel.cpp:34-52 | patching the same slots twice equals patching them once with the second value |
| Kernel.SetupThenRevert | src/kernel.cpp:34-52 | whatever the `KernelPatches` routine did to the kernel words, the revert syscall is issued with all five slots holding the revert hook and every other word as that routine left it; of the two series of stores alone, the first leaves no trace |
| Kernel.WriteSlotsAndCall | src/kernel.cpp:35-41 | the syscall is issued with the kernel words patched in exactly the five slots, and the kernel words then are its effect on those; the trace gains the five stores and the syscall; memory is unchanged |
| Kernel.DoKernelSetup | src/kernel.cpp:34-42 | the five slots are set to `KernelPatches` and no other word is written, then syscall 0x36 runs with those words; the kernel words become its effect, and memory is unchanged |
| Kernel.RevertKernelHook | src/kernel.cpp:44-52 | the five slots are set to `KernelPatchesRevertHook` and no other word is written, then syscall 0x36 runs with those words; the kernel words become its effect, and memory is unchanged |
| Payloads.LessIrreflexive | src/main.cpp:133 | no key orders before itself |
| Payloads.LessTransitive | src/main.cpp:133 | the key order is transitive |
| Payloads.LessTotal | src/main.cpp:133 | two different keys are ordered one way or the other |
| Payloads.Less | src/main.cpp:133 | std::string `<`, the key order of the map: lexicographic on characters, with a proper prefix first |
| Payloads.Lookup | src/main.cpp:133 | `m[k]` on the map: the value of the entry whose key is `k`, if there is one |
| Payloads.PutLookup | src/main.cpp:133 | after `result[k] = v`, `k` maps to `v` and every other key to what it mapped to before |
| Payloads.PutEntries | src/main.cpp:133 | every entry after the assignment is the new one or an old one |
| Payloads.PutSorted | src/main.cpp:133 | the assignment keeps the entries in strictly ascending key order |
| Payloads.Put | src/main.cpp:133 | `result[k] = v` on the `std::map`, kept as a key-ordered list of entries |
| Payloads.Split | src/main.cpp:126 | a split always yields at least one piece |
| Payloads.JoinSplit | src/main.cpp:126 | the pieces joined with '/' give back the string, and no piece holds '/' |
| Payloads.SplitSingle | src/main.cpp:126-130 | a string splits into one piece, itself, exactly when it holds no '/' |
| Payloads.SplitAppend | src/main.cpp:126 | splitting `a + "/" + b` gives the pieces of `a` followed by those of `b` |
| Payloads.FolderNameIsLast | src/main.cpp:126-130 | the key is the last '/'-separated piece of the folder path; it holds no '/' and ends the path |
| Payloads.FolderNameOfChild | src/main.cpp:126-130 | a folder listed as `path + "/" + name` is filed under `name` |
| Payloads.FolderName | src/main.cpp:126-130 | the key a folder is filed under: the last piece of its '/'-split path when there are several, the whole path otherwise |
| Payloads.Keep | src/main.cpp:161-165 | whether readDirFull keeps an entry: a directory under filters up to 1, any entry under filters 0 and 2 |
| Payloads.ListingKeepsAll | src/main.cpp:161-165 | filters 0 and 2 keep every entry read, in order, as `path + "/" + name` |
| Payloads.ListedIsDir | src/main.cpp:161-162 | everything filter 1 lists is a directory read before the first negative status |
| Payloads.DirIsListed | src/main.cpp:161-162 | every directory read before the first negative status is listed by filter 1 |
| Payloads.ListingKeepsDirs | src/main.cpp:161-165 | filter 1 lists a path exactly when it is `path + "/" + name` of a directory entry |
| Payloads.ListingStops | src/main.cpp:155-158 | nothing after the first negative status is listed |
| Payloads.Listing | src/main.cpp:154-166 | the paths readDirFull collects from a directory's reads: `path + "/" + name` of each entry the filter keeps, in read order, up to the first negative status |
| Payloads.ReadDir | src/main.cpp:147-171 | readDirFull: the listing of the directory when it opens, and the empty list when it does not |
| Payloads.ReadDirFull | src/main.cpp:147-171 | the loop collects what `ReadDir` specifies, and nothing when the directory fails to open |
| Payloads.FirstPayloadSpec | src/main.cpp:124-135 | the recorded child is the first one ending in "payload.elf"; none is recorded exactly when no child ends that way |
| Payloads.FirstPayload | src/main.cpp:124-135 | the first child whose path ends in "payload.elf", if any |
| Payloads.GatherLookup | src/main.cpp:120-137 | each key maps to the payload of the last folder with that key that has one |
| Payloads.GatherShape | src/main.cpp:120-137 | the map stays in ascending key order and each value ends in "payload.elf" |
| Payloads.Gather | src/main.cpp:120-137 | the map after visiting the folders in order, each filing its first payload under its folder name |
| Payloads.Collected | src/main.cpp:97-145 | get_all_payloads: the empty map when the SD card does not mount, else what `Gather` makes of the directories listed under the root |
| Payloads.CollectedShape | src/main.cpp:97-145 | a failed mount gives the empty map; otherwise the map is sorted, holds only payload.elf paths, and maps each key to its last folder's payload |
| Payloads.RecordFirstPayload | src/main.cpp:124-136 | the inner loop files the first matching child under the folder's key and then stops |
| Payloads.GetAllPayloads | src/main.cpp:97-145 | the loops build the map `Collected` specifies |
| Payloads.CursorClamps | src/main.cpp:216-226 | UP is `max(selected - 1, 0)`, DOWN is `min(selected + 1, size - 1)`, anything else keeps the cursor, and the cursor stays in `[0, size)` |
| Payloads.CursorEmptyMenu | src/main.cpp:216-226 | with an empty map the cursor stays in {0, -1}: DOWN sets it to -1, UP sets it to 0, anything else keeps it |
| Payloads.CursorStep | src/main.cpp:216-226 | the cursor after one UP or DOWN trigger, with the int32 and uint32 casts of the DOWN clamp written out |
| Payloads.MenuInRange | src/main.cpp:195-226 | for a non-empty map the cursor is on an entry when A is pressed |
| Payloads.MenuStops | src/main.cpp:211-214 | the menu stops exactly when an A trigger occurs |
| Payloads.MenuLoop | src/main.cpp:195-226 | the cursor when the first A trigger comes, from the given cursor and the triggers of successive reads, or none when A never comes |
| Payloads.SelectionPicks | src/main.cpp:195-240 | the menu returns exactly when A comes; it returns the value of one of the entries when there are any, and "" for the empty map |
| Payloads.Pick | src/main.cpp:233-240 | the value of the `selected`-th entry in key order, or "" when no entry has that index |
| Payloads.Selection | src/main.cpp:195-240 | PayloadSelectionScreen: the value at the cursor where A is pressed, or "", and a stop that never returns when A never comes |
| Payloads.PayloadSelectionScreen | src/main.cpp:174-241 | the polling loop and the final lookup return what `Selection` specifies |
| ChainLoader.MenuRequestedByEither | src/main.cpp:60-67 | the menu opens exactly when B is set in `hold` or in `trigger` |
| ChainLoader.MenuRequested | src/main.cpp:59-67 | the menu test: the bitwise or of the 32-bit `hold` and `trigger` words, masked with `VPAD_BUTTON_B`, equals the mask |
| ChainLoader.ChosenPath | src/main.cpp:60-70 | the path start_wrapper loads: the menu's choice among the collected payloads when B is held or pressed, the default path otherwise |
| ChainLoader.ChosenPathSpec | src/main.cpp:64-70 | without B the default path is loaded; with it, the value of one of the collected payloads, or "" |
| ChainLoader.Run | src/main.cpp:72 | whatever is installed is a readable, accepted ELF whose sections fit the address space |
| ChainLoader.Boot | src/main.cpp:46-87 | what start_wrapper returns: the load result of the chosen path, or a stop |
| ChainLoader.Installed | src/main.cpp:72 | the image start_wrapper installs, if any; an installed image is readable, accepted and fits the address space |
| ChainLoader.LoadTraceIsCacheOps | src/main.cpp:72 | the events of the load in start_wrapper are cache flushes and invalidations only |
| ChainLoader.ChoosePayload | src/main.cpp:56-70 | reading the pad, collecting payloads and the menu give the path `ChosenPath` specifies |
| ChainLoader.BracketedTrace | src/main.cpp:46-87 | the five setup stores and a syscall, then cache maintenance only, then the five revert stores and a syscall: no syscall other than the two |
| ChainLoader.WrapperOrder | src/main.cpp:46-87 | a returning start_wrapper's trace begins with the five KernelPatches stores and a syscall, ends with the five revert-hook stores and a syscall, holds only cache maintenance in between, and has no other syscall |
| ChainLoader.StartWrapper | src/main.cpp:46-87 | returns the load result; on return the kernel words are what the two routines leave, each run right after its five stores, and the trace is setup, load, revert; on a fatal stop only the `KernelPatches` routine has run; memory changes only by the installed image |
| ChainLoader.Start | src/main.cpp:88-95 | -1 with no jump when the entry is 0, after both routines; otherwise one jump to the entry with the loader's argc and argv, made after the revert syscall with the kernel words both routines left, and the entry's result; a stop comes after the five `KernelPatches` stores, the syscall and nothing else; without a jump, memory changes only by the installed image |
| ChainLoader.StartResult | src/main.cpp:88-95 | what _start returns: -1 when the entry point is 0, the payload's result otherwise, and a stop when start_wrapper stops |
| ChainLoader.HandoffAfter | src/main.cpp:84-92 | a jump appended after a trace ending in the revert stores and syscall is the only jump, right after that syscall |
| ChainLoader.HandoffIsLast | src/main.cpp:84-92 | the jump is the last event, right after the unhooking syscall and the five revert stores, and happens nowhere earlier |

## Left out

- ElfLoader.ReadRequestsBounded: the bound "no request reaches past the end of the file" is proved only for files of at most 2^32 - 0x20000 bytes. For larger files `done + blocksize` wraps in 32 bits and the last block is not shortened. NO_WRAP_LIMIT names the bound.
- ElfLoader.LoadElf, ElfLoader.LoadRejects, ElfLoader.LoadInstalls, ElfLoader.LoadStaysInWindow, ElfLoader.LoadLoaderElf, ChainLoader.Run, ChainLoader.StartWrapper, ChainLoader.Start: they require that every file the loader may open is readable as an ELF image (`Loadable`, `Readable`). That means the header and section table lie in the buffer, every present section's file range lies in it, and `e_shstrndx < e_shnum` whenever there are section headers (`WellFormed`). The C code reads outside the buffer otherwise, `shdr[e_shstrndx]` included, and that read is not modelled.
- Payloads.CursorClamps, Payloads.MenuInRange, Payloads.SelectionPicks: they assume the map holds fewer than 2^31 entries, so `size - 1` fits an `int`.
- Elf.CheckSection, Elf.CheckLoadedBetween: they use the intended window test. The wrap-around of the test as written is modelled separately; see Findings.
- ElfLoader.LoadElf: it decides the load with the intended window test. As written, a section whose 32-bit end wraps (for example a 64 KiB `.text` at 0xFFFF0000) is accepted and installed.
- ElfLoader.LoadRejects: "a failed window check returns 0" is about the intended test. A wrapping section that the test as written lets through is not rejected by the code.
- ElfLoader.LoadInstalls: "installed exactly when it fits the window" is about the intended test. The code as written also installs an image with a wrapping section.
- ElfLoader.LoadStaysInWindow: it holds for the intended test only. As written, the 64 KiB `.text` at 0xFFFF0000 is copied to 0xFFFF0000..0xFFFFFFFF, outside the window.
- ElfLoader.LoadLoaderElf: it inherits the intended window test of LoadElf.
- ElfLoader.LoadFileToMem: it uses the intended allocation size. For `filesize > 0xFFFFFFC0` it returns -2, where the code asks `memalign` for 0 bytes and goes on reading if that succeeds.
- ChainLoader.Run: "the installed sections fit the address space" comes from the intended window test.
- ChainLoader.StartWrapper: "memory changes only by the installed image" relies on the intended window test.
- ChainLoader.Start: it inherits the intended window test. What the payload itself does to memory and kernel words after the jump is not modelled; the trace records the kernel words at the jump.
- Platform.Console.Syscall0x36: the routine's effect is an arbitrary function of the kernel words alone, and it is assumed to write no physical memory. The `mem` claims of Kernel.WriteSlotsAndCall, Kernel.DoKernelSetup, Kernel.RevertKernelHook, ChainLoader.StartWrapper and ChainLoader.Start rest on that assumption.
- Platform.Console.CallEntry: the payload is arbitrary privileged code, so the model promises nothing about memory or kernel words after it returns.
- Elf.NameIs: a section name whose bytes run past the end of the file buffer is taken as no match. The C `strcmp` reads past the buffer there.
- Elf.ElfImage: it requires every present section's file range to lie in the buffer, `.bss` included. A NOBITS `.bss` whose offset plus size runs past the end of the file is excluded, although the code would memcpy from past the buffer.
- File I/O (`open`, `lseek`, `read`, `close`) is an input. Each stored file is its bytes plus a script of what successive `read` calls return. The allocator's success is a boolean input.
- The SD card (`WHBMountSdCard`, the FS client and command block, `FSOpenDir`, `FSReadDir`) is an input. A directory is the list of its reads, and a list that runs out reads as the end of the directory.
- The gamepad (`VPADRead`) is an input: the hold and trigger of the first read, and the triggers of the menu's reads.
- Screen drawing, `OSSleepTicks` and logging (`DEBUG_FUNCTION_LINE`, `WHBLogUdp*`) are user interface and I/O. They are not modelled.
- `__init_wut`, `__fini_wut` and `InitFunctionPointers` are runtime start-up. They are not modelled.
- The jump through the raw function pointer at src/main.cpp:92 is the parameter `run`, an arbitrary function of entry, argc and argv.
- The inline assembly of `kern_write` is a plain word store into `kwords`. The routines `Syscall_0x36`, `KernelPatches` and `KernelPatchesRevertHook` are foreign code. They appear as an event, as two addresses, and as the parameter `syscallEffect`.
- The caches are not modelled. `DCFlushRange` and `ICInvalidateRange` are ordered events over a range.
- `free` of the file buffer is not modelled. The buffer is a value, and the code does not free it when the window check fails.
- `kernel.h`, `StringTools` and the VPAD header are not part of this model. Their constants and behaviour are the assumptions listed at the top.
- src/utils/ElfUtils.h only declares prototypes.

## Findings

| source | as written | input that shows it | evidently intended | confidence | as-written member | corrected member |
|---|---|---|---|---|---|---|
| src/utils/ElfUtils.c:99 | `target_addr + len > end_address` is a uint32 sum, so a range whose end wraps past 2^32 passes | a 64 KiB `.text` with `sh_addr` 0xFFFF0000 and `sh_size` 0x10000: the sum wraps to 0, the section is accepted and copied to 0xFFFF0000..0xFFFFFFFF | a section passes only when `[addr, addr + len)` lies inside the window | not executed | Elf.WindowCheckWrapsExample | Elf.CheckLoadedBetween |
| src/utils/ElfUtils.c:30 | `(filesize + 0x3F) & ~0x3F` is a uint32 sum, so the rounded size wraps to 0 | `filesize` 0xFFFFFFC1: `memalign(0x40, 0)` is requested for a file of nearly 4 GiB | the buffer is at least `filesize` bytes, or the allocation fails | not executed | ElfLoader.AllocSizeAsWrittenWraps | ElfLoader.AllocSize |
