# Verified model of the CatPlay firmware's algorithmic cores

This Dafny project models the parts of the firmware repository whose correctness no finite set of
examples settles: the kernel module resolver, the image checksum, the OTA container, partitioned
flash access, the crash-atomic key-file write, the cpio update rebuilder, the USB boot of a MIPS
kernel, the property store and the HTTP request reader. `dafny verify dfyconfig.toml` checks it.

Each component is modelled in the form its source has. Loops and objects are methods and classes
proved against a specification function; what the source promises is proved about that function.
System calls, USB transfers, sockets and the power supply are schedules: a parameter says how each
call fares, and the contracts hold for every schedule. MD5 is a function parameter; its streaming
interface hashes the concatenation of what it was fed.

| files | component |
|---|---|
| `ModuleGraph`, `ModuleNames`, `LoadOrder`, `Modules`, `FileLines`, `Modprobe` | dependency graph, traversal, path check, loader |
| `Lfsr`, `Crc`, `Cksum`, `ImageCrc` | shift-register algebra, its 32-bit instance, the table-driven checksum, the block fold |
| `Md5`, `Ota`, `OtaReader`, `OtaPacker`, `OtaText`, `OtaRoundTrip`, `OtaDamage`, `OtaTampering`, `OtaFailures`, `OtaWrapping` | OTA header parser, extractor, packer, round trip, damage detection, the three ways the parser fails |
| `Mmap`, `Flash` | write-if-different, partitions as one flat image |
| `Storage`, `AtomicWrite` | a disk that may lose power, the atomic write on it |
| `PythonHex`, `HexSyntax`, `Cpio`, `CpioParser`, `CpioSoundness`, `CpioRoundTrip`, `CpioFormat`, `Swu`, `SwuRepacker` | number format, which texts are which numbers, cpio printer and parser, what the parser accepts, round trip, the format itself, envelope, XOR and trailer layers, the rebuild pipeline |
| `Division`, `Bits`, `Mips`, `Trampoline`, `BootArgs`, `Boot` | instruction encoding and processor, code generator, argument block, upload |
| `Props`, `PropsRoundTrip`, `PropsSyntax`, `PropStore`, `PropFailures` | property types and file, what lines mean, store with rollback, what a failed save leaves |
| `Http`, `HttpPanic`, `HttpLength` | request reader and parser, when they crash, and the length they go by |
| `Basics`, `Text`, `Utf8`, `Numbers` | shared vocabulary: sequences, string operations, UTF-8, decimal and hex |

What the proofs brought to light about the code, kept in the model as it is:

- `parse_ota` never ends exactly when the header text sets block size zero and describes, before any section overruns the file or has an end beyond 32 bits, a non-empty one with a checksum (`OtaFailures.RunsForeverIff`). It indexes past the file exactly when the file is shorter than the header area, its text names a packet MD5, and no part of it describes an image (`OtaFailures.OutOfBoundsIff`). It slices a section backwards exactly when it reaches a description whose end does not fit 32 bits and what is left of that end is inside the file (`OtaWrapping.OutOfOrderIff`); together these are all the panics of the extractor (`OtaWrapping.PanicsIff`). A file for each: `OtaFailures.PaddedHeaderRunsForever`, `OtaFailures.OneLinePanics`, `OtaWrapping.WrappingSizePanics`.
- Section types and names lose the white space at their ends (`OtaRoundTrip.NamesSurviveIffTrimmed`).
- The three-partition flash layout that the documentation describes is recognised but always "offline", because the size of the fourth partition is demanded too (`Flash.ThreePartitionsAreOffline`).
- The checksum is the POSIX value without the final complement; the vector in `mini/crc.rs:73` is the complement.
- `btd_file_set_contents` reports success without durability in exactly two cases (`AtomicWrite.SetContents`): the file is replaced but its directory has no name (as for every file directly below `/`) or cannot be opened, `AtomicWrite.SuccessNeedNotBeDurable`; or the contents are unchanged and were not durable before, as in a retry after a failed directory sync, `AtomicWrite.RetryReportsSuccess`. When the directory sync fails it reports failure although the new contents are in place.
- A saved property file is readable exactly when every value is not blank and still valid for its type without the white space at its end (`PropsRoundTrip.FileIsReadIff`); a single value that is not makes a restart fall back to the defaults for every property (`PropStore.RestartOutcome`).
- A `set` whose write fails is rolled back in memory only. The file may then be the front of the new text over the old one, and the next start may load from it a value that is neither the old nor the new one (`PropFailures.FailedSetMixesValues`): changing 10 to 25 can end in 20 (`PropFailures.TwentyIsMixed`).
- A flash access at an offset so near to 2^32 that its end wraps around passes the size check. With several partitions it is reported as a success and nothing is written or read; with one the program panics once the device is mapped (`Flash.Chip.Write`, `Flash.Chip.Read`). No caller passes such an offset.
- `parse_content_length` panics exactly when the header is text and some line, trimmed, has a character across byte 15 while no earlier line states a length (`HttpPanic.PanicsIff`); the reader then crashes, however the request was cut into pieces (`HttpPanic.CrashedIff`). A request that does it: `HttpPanic.AccentCrashes`.
- The cpio parser takes a size with a minus sign, and the next offset may then lie behind the current one: a first entry called "sw-description" with size -128 leads back to offset 0 for ever (`CpioSoundness.BackwardEntryRunsForever`). If no entry that is met has a negative size, every turn moves on and the parser ends (`CpioParser.ForwardEnds`); in general it runs for ever exactly when, within twice as many turns as the input has bytes and one more, it comes back to an offset where it has been (`CpioParser.RunsForeverIff`).
- Nothing checks that the trampoline address is a multiple of four, without which the processor faults at once (`Boot.BootReachesKernel`); a boot with such an address succeeds (`Boot.MisalignedBoot`).

## Model

| member | source | states |
|---|---|---|
| ModuleNames.ShortNameIsClean | meta-carlinkit/recipes-bsp/carlinkit-otalib/src/nostd/modules_info.rs:23-38 | a short name never contains a slash or `.ko` |
| ModuleNames.ShortNameIdempotent | meta-carlinkit/recipes-bsp/carlinkit-otalib/src/nostd/modules_info.rs:23-38 | shortening a short name changes nothing |
| ModuleNames.ShortNameOfPath | meta-carlinkit/recipes-bsp/carlinkit-otalib/src/nostd/modules_info.rs:23-38 | `dir/base.ko` and `base.ko` with any suffix (plain or compressed) are called `base`, and so is `dir/base` |
| ModuleNames.DepNamesOfPrinted | meta-carlinkit/recipes-bsp/carlinkit-otalib/src/nostd/modules_info.rs:45-72 | reading a dependency list gives the short names of its paths, in order, whatever spaces and tabs separate them; a path without a name is passed over |
| Modules.DepLineOfPrinted | meta-carlinkit/recipes-bsp/carlinkit-otalib/src/nostd/modules_info.rs:45-72 | a `modules.dep` line makes exactly that module's entry: its path and its dependencies by name, whatever separates them |
| Modules.BuiltinLineOfPath | meta-carlinkit/recipes-bsp/carlinkit-otalib/src/nostd/modules_info.rs:74-80 | a `modules.builtin` line for `dir/base.ko` or `base.ko`, with any suffix, adds exactly `base` to the built-in set and leaves dependencies and paths alone |
| Modules.LastLineCounts | meta-carlinkit/recipes-bsp/carlinkit-otalib/src/nostd/modules_info.rs:45-72 | after a whole `modules.dep` the path and the dependencies of a name are those of the last line about it |
| Modules.BuiltinLinesName | meta-carlinkit/recipes-bsp/carlinkit-otalib/src/nostd/modules_info.rs:74-80 | after a whole `modules.builtin` a name is built in if and only if it was before or is the non-empty short name of a line; nothing else changes |
| Modules.ModulesInfo.DepVector | meta-carlinkit/recipes-bsp/carlinkit-otalib/src/nostd/modules_info.rs:54-66 | the word loop collects the dependency names of the list, passing over empty words and empty names |
| Modules.ModulesInfo.FeedModulesDepLine | meta-carlinkit/recipes-bsp/carlinkit-otalib/src/nostd/modules_info.rs:45-72 | the tables after a line: path and dependencies replaced for that one name, nothing else changed |
| Modules.ModulesInfo.FeedModulesBuiltinLine | meta-carlinkit/recipes-bsp/carlinkit-otalib/src/nostd/modules_info.rs:74-80 | the built-in set gains the line's short name, nothing else changes |
| Modules.ModulesInfo.ResolveLoadOrder | meta-carlinkit/recipes-bsp/carlinkit-otalib/src/nostd/modules_info.rs:90-171 | Ok means a load order (exactly the loadable modules reachable from the root, each once, dependencies first, root last); Err if and only if a cycle among loadable modules lies below the root; always terminates |
| LoadOrderSearch.VisitingMeansCycle | meta-carlinkit/recipes-bsp/carlinkit-otalib/src/nostd/modules_info.rs:158-161 | meeting a module that is still being visited closes a cycle that the root reaches |
| LoadOrderSearch.FinishKeepsInv | meta-carlinkit/recipes-bsp/carlinkit-otalib/src/nostd/modules_info.rs:124-145 | a finished module is not in the order yet, so the duplicate check suppresses nothing; all traversal invariants are kept |
| LoadOrderSearch.PushKeepsInv | meta-carlinkit/recipes-bsp/carlinkit-otalib/src/nostd/modules_info.rs:147-157 | a pushed name was never pushed before: the set of names left shrinks, and all invariants are kept |
| LoadOrderSearch.EmptyStackMeansLoadOrder | meta-carlinkit/recipes-bsp/carlinkit-otalib/src/nostd/modules_info.rs:105-171 | when the stack is empty the order is a complete load order |
| ModuleGraph.LoadOrderExcludesCycle | meta-carlinkit/recipes-bsp/carlinkit-otalib/src/nostd/modules_info.rs:90-171 | a module that has a load order has no cycle below it, so the two results of the resolver exclude each other |
| ModuleGraph.PrefixIsSelfSufficient | meta-carlinkit/recipes-bsp/carlinkit-otalib/src/modprobe_util.rs:61-74 | every prefix of a load order holds all that its members need, directly or through others |
| FileLines.ForEachFileLine | meta-carlinkit/recipes-bsp/carlinkit-otalib/src/modprobe_util.rs:142-182 | the lines delivered are those of the whole file, whatever the non-empty chunks in which it is read (an empty one is the end of the file); overflow exactly when a line exceeds the buffer |
| FileLines.LinesOfText | meta-carlinkit/recipes-bsp/carlinkit-otalib/src/modprobe_util.rs:142-182 | a line ended by LF or by CR LF is delivered without its end, and then come the lines of the rest |
| FileLines.LongLineStops | meta-carlinkit/recipes-bsp/carlinkit-otalib/src/modprobe_util.rs:142-182 | a line of more than 2048 bytes ends the reading with an overflow |
| Modprobe.LoadModulesInfo | meta-carlinkit/recipes-bsp/carlinkit-otalib/src/modprobe_util.rs:124-140 | a name is built in if and only if it is the non-empty short name of a line of modules.builtin; it has a path and dependencies if and only if a line of modules.dep is about it, and they are those of the last one; fails exactly when a line is too long |
| Modprobe.ValidateDependencyPaths | meta-carlinkit/recipes-bsp/carlinkit-otalib/src/modprobe_util.rs:241-284 | acceptance means that every loadable module the root reaches has a path; every refusal names a truly missing path or a graph too big for the fixed lists |
| Modprobe.PushDependencies | meta-carlinkit/recipes-bsp/carlinkit-otalib/src/modprobe_util.rs:262-280 | one module's loadable dependencies are all queued, or the error is justified |
| Modprobe.PathIsJoined | meta-carlinkit/recipes-bsp/carlinkit-otalib/src/modprobe_util.rs:184-192 | a module's file is looked for at the directory, one slash and its path, whether or not the directory is given with a slash at its end |
| Modprobe.LoadInOrder | meta-carlinkit/recipes-bsp/carlinkit-otalib/src/modprobe_util.rs:61-77 | the calls made are a prefix of the plan; it ends with every call accepted, or before a call for a reason in the tables after all earlier ones were accepted, or with the first call that the kernel refuses; no module of an accepted order lacks a path, so the later not-found branch cannot be taken |
| Modprobe.ModprobeWithParams | meta-carlinkit/recipes-bsp/carlinkit-otalib/src/modprobe_util.rs:33-77 | a request without a name or with one over 128 bytes is an error; nothing is loaded before the path check and the cycle check have passed; then the calls are those of the plan up to the first refusal, and Ok means that the kernel accepted every one of them |
| Modprobe.EveryMomentIsSafe | meta-carlinkit/recipes-bsp/carlinkit-otalib/src/modprobe_util.rs:33-77 | when the call for a module is made the kernel has already accepted an earlier call for everything that the module needs, directly or through others; the requested module gets the parameters, and it is the last call of the plan, and every other call gets none |
| Modprobe.SuccessLoadsEverything | meta-carlinkit/recipes-bsp/carlinkit-otalib/src/modprobe_util.rs:33-77 | a run that returns Ok has had a call accepted for the requested module and for everything that it needs |
| Lfsr.ShortFormIsLongDivision | meta-carlinkit/recipes-bsp/carlinkit-otalib/src/mini/crc.rs:27-56 | for any lawful shift register the short form equals long division of the message followed by `width` zeros |
| Lfsr.BurstDetected | meta-carlinkit/recipes-bsp/carlinkit-otalib/src/mini/crc.rs:27-56 | two messages that differ only within `width` consecutive bits have different remainders, whatever surrounds them |
| Crc.RegisterIsLawful | meta-carlinkit/recipes-bsp/carlinkit-otalib/src/mini/crc.rs:5-25 | multiplication by x modulo 0x04C11DB7 on 32-bit words satisfies all the register laws |
| Crc.TableStepIsEightBits | meta-carlinkit/recipes-bsp/carlinkit-otalib/src/mini/crc.rs:37-40 | one table look-up does the work of entering eight bits one by one |
| Cksum.TableIndex | meta-carlinkit/recipes-bsp/carlinkit-otalib/src/mini/crc.rs:37-53 | every table index is below 256 |
| Cksum.LookUpIsByteStep | meta-carlinkit/recipes-bsp/carlinkit-otalib/src/mini/crc.rs:37-53 | with a correct table one look-up advances the register by one byte |
| Cksum.MakeCksumTable | meta-carlinkit/recipes-bsp/carlinkit-otalib/src/mini/crc.rs:5-25 | entry i is i in the top byte after eight bit-serial steps |
| Cksum.AdvanceMasked | meta-carlinkit/recipes-bsp/carlinkit-otalib/src/mini/crc.rs:43-53 | the tail loops' masked index is the same index: one step feeds one byte |
| Cksum.CksumCrc32 | meta-carlinkit/recipes-bsp/carlinkit-otalib/src/mini/crc.rs:27-56 | the unrolled program computes the specified checksum: the remainder of the data, the bytes that spell its 32-bit length, and 32 zeros |
| Cksum.ChecksumIsPosix | meta-carlinkit/recipes-bsp/carlinkit-otalib/src/mini/crc.rs:27-56 | for any bytes that sum to the 32-bit length (b[i] * 256^i) and do not end with zero: the checksum is the remainder of the bit-serial division of data, these bytes and 32 zeros; below 2^32 bytes that is the uncomplemented POSIX cksum |
| Cksum.LengthIsSpelled | meta-carlinkit/recipes-bsp/carlinkit-otalib/src/mini/crc.rs:49-54 | the length loop's bytes are such bytes, for every number |
| Cksum.SpelledOnce | meta-carlinkit/recipes-bsp/carlinkit-otalib/src/mini/crc.rs:49-54 | and there are no others |
| Cksum.KnownValue | meta-carlinkit/recipes-bsp/carlinkit-otalib/src/mini/crc.rs:27-56 | the checksum of 256 zero bytes is 0x04C11DB7 |
| ImageCrc.XorCrcImg | meta-carlinkit/recipes-bsp/carlinkit-otalib/src/mini/crc.rs:58-67 | for every block size from one, the loop computes the exclusive or of the checksums of the blocks, the last possibly short |
| ImageCrc.XorCrcOfBlocks | meta-carlinkit/recipes-bsp/carlinkit-otalib/src/mini/crc.rs:58-67 | an image that consists of whole blocks and a last one that is not longer has the exclusive or of the checksums of these blocks |
| ImageCrc.BurstInBlock | meta-carlinkit/recipes-bsp/carlinkit-otalib/src/mini/crc.rs:27-56 | equal-length blocks that differ by a burst of at most 32 bits have different checksums |
| ImageCrc.DamageIsDetected | meta-carlinkit/recipes-bsp/carlinkit-otalib/src/mini/crc.rs:58-67 | equal-length images that differ only within four consecutive bytes of one block have different image checksums, for every block size |
| Md5.ParseMd5Hex | meta-carlinkit/recipes-bsp/carlinkit-otalib/src/mini/md5.rs:3-27 | the loop returns the value of 32 hex digits of either case, and nothing for any other text |
| Md5.HexDigestOfPrinted | meta-carlinkit/recipes-bsp/carlinkit-otalib/src/mini/md5.rs:3-27 | a digest printed in hex reads back as itself |
| Md5.HexDigestIff | meta-carlinkit/recipes-bsp/carlinkit-otalib/src/mini/md5.rs:3-27 | a text is a digest if and only if it consists of 32 hex digits of either case, two for each byte, the high one first |
| OtaReader.ScanHeader | meta-carlinkit/recipes-bsp/carlinkit-otalib/src/mini/ota.rs:66-139 | the loop over the header parts builds exactly the described sections, at accumulating offsets, up to the capacity, the first overrun, an end that wraps around or an endless checksum |
| OtaReader.FoldText | meta-carlinkit/recipes-bsp/carlinkit-otalib/src/mini/ota.rs:154-173 | the line loop folds every line of the header, in order |
| OtaText.KeyValueIs | meta-carlinkit/recipes-bsp/carlinkit-otalib/src/mini/ota.rs:77-91 | a header line is split at its first equals sign and white space around both parts is dropped; a line without one says nothing |
| OtaText.NumbersAreSet | meta-carlinkit/recipes-bsp/carlinkit-otalib/src/mini/ota.rs:77-173 | a size or checksum that cannot be read as a 32-bit number counts as zero; such a block size changes nothing |
| OtaText.NothingIsSet | meta-carlinkit/recipes-bsp/carlinkit-otalib/src/mini/ota.rs:70-76 | what an image is whose description sets nothing, and that blocks are of 128 KiB unless the header says otherwise |
| OtaReader.RunParseOta | meta-carlinkit/recipes-bsp/carlinkit-otalib/src/mini/ota.rs:55-152 | the program's outcome is the specified one, including the runs that never end, index out of bounds or slice a section backwards |
| OtaReader.OtaExtractor.Parse | meta-carlinkit/recipes-bsp/carlinkit-otalib/src/mini/ota.rs:192-218 | the verdict, with the runs that give none because they panic or never end; the stored sections and settings; slots behind the found sections keep what they held |
| OtaReader.ParsedSectionsTile | meta-carlinkit/recipes-bsp/carlinkit-otalib/src/mini/ota.rs:55-152 | reported sections tile the file contiguously from the header on, stay in bounds, and carry the true outcome of both checks |
| OtaReader.TilesConcatenate | meta-carlinkit/recipes-bsp/carlinkit-otalib/src/mini/ota.rs:141-149 | tiling sections are together one contiguous slice, the one the packet digest is taken over |
| OtaReader.AcceptedIffSound | meta-carlinkit/recipes-bsp/carlinkit-otalib/src/mini/ota.rs:192-218 | accepted if and only if there are sections, every non-zero CRC and non-empty MD5 matches, and a present packet MD5 matches the concatenation unless a section overran |
| OtaReader.ReasonIff | meta-carlinkit/recipes-bsp/carlinkit-otalib/src/mini/ota.rs:192-218 | which reason a refusal gives: no sections, the first section that failed with its CRC before its MD5, or else the packet MD5 |
| OtaPacker.Packer.Add | meta-carlinkit/recipes-bsp/carlinkit-otalib/src/mini/ota_packer.rs:42-52 | the list of images gains one, with digest and checksum of its data |
| OtaPacker.Packer.OutputSize | meta-carlinkit/recipes-bsp/carlinkit-otalib/src/mini/ota_packer.rs:32-40 | the header area plus all data, modulo 2^32 |
| OtaPacker.Packer.BuildHeader | meta-carlinkit/recipes-bsp/carlinkit-otalib/src/mini/ota_packer.rs:54-94 | the header text, and that it fits its string exactly up to the capacity |
| OtaPacker.BlockIsPrinted | meta-carlinkit/recipes-bsp/carlinkit-otalib/src/mini/ota_packer.rs:60-81 | the exact text of an image's description |
| OtaPacker.FooterIsPrinted | meta-carlinkit/recipes-bsp/carlinkit-otalib/src/mini/ota_packer.rs:83-93 | the exact text of the settings that end a header |
| OtaPacker.HeaderIsPrinted | meta-carlinkit/recipes-bsp/carlinkit-otalib/src/mini/ota_packer.rs:54-94 | a header is its first line, the descriptions in order and the settings with the digest of all data |
| OtaPacker.Packer.Pack | meta-carlinkit/recipes-bsp/carlinkit-otalib/src/mini/ota_packer.rs:96-107 | header and images are in place, every other byte of the buffer is as before |
| OtaRoundTrip.BlockReadsBack | meta-carlinkit/recipes-bsp/carlinkit-otalib/src/mini/ota_packer.rs:60-81 | the lines printed for an image set all five fields to its values, names without white space at their ends |
| OtaRoundTrip.PackThenParse | meta-carlinkit/recipes-bsp/carlinkit-otalib/src/mini/ota_packer.rs:32-107 | packing up to eight images into a zeroed buffer and parsing gives back types, names, data, CRCs, MD5s and offsets, with all checks passed |
| OtaRoundTrip.PackedFileIsAccepted | meta-carlinkit/recipes-bsp/carlinkit-otalib/src/mini/ota.rs:192-218 | the extractor accepts every packed file that holds an image |
| OtaRoundTrip.PackAndExtract | meta-carlinkit/recipes-bsp/carlinkit-otalib/src/mini/ota_packer.rs:96-107 | packing any list of images that were added and reading the result: accepted, or refused for having no section if the list is empty |
| OtaRoundTrip.NamesSurviveIffTrimmed | meta-carlinkit/recipes-bsp/carlinkit-otalib/src/mini/ota.rs:77-91 | types and names come back unchanged if and only if they have no white space at their ends |
| OtaDamage.DamagedSectionIsFlagged | meta-carlinkit/recipes-bsp/carlinkit-otalib/src/mini/ota.rs:112-117 | a section with a non-zero stored CRC whose data differ within four consecutive bytes of one block is always flagged |
| OtaDamage.FlaggedFileIsRefused | meta-carlinkit/recipes-bsp/carlinkit-otalib/src/mini/ota.rs:192-218 | a file with a flagged section is never accepted |
| OtaDamage.EndlessIff | meta-carlinkit/recipes-bsp/carlinkit-otalib/src/mini/ota.rs:66-139 | for any descriptions the scan ends in an endless checksum if and only if the block size is zero and a non-empty section with a CRC is described before any section overruns or wraps around |
| OtaTampering.DamagedImageIsRefused | meta-carlinkit/recipes-bsp/carlinkit-otalib/src/mini/ota.rs:192-218 | if one image of a packed file is damaged within four consecutive bytes of one block, and its recorded checksum is not zero, the extractor refuses the file |
| OtaFailures.OutOfBoundsIff | meta-carlinkit/recipes-bsp/carlinkit-otalib/src/mini/ota.rs:141-149 | for every file: the parser indexes past it if and only if it is shorter than the header area, its text names a packet MD5 and no part describes an image |
| OtaFailures.OneLinePanics | meta-carlinkit/recipes-bsp/carlinkit-otalib/src/mini/ota.rs:141-149 | a file of one line that names a packet MD5 is such a file |
| OtaFailures.RunsForeverIff | meta-carlinkit/recipes-bsp/carlinkit-otalib/src/mini/ota.rs:66-139 | for every file: the parser never ends if and only if its text sets block size zero and describes a non-empty section with a CRC before any section overruns or wraps around |
| OtaFailures.PaddedHeaderRunsForever | meta-carlinkit/recipes-bsp/carlinkit-otalib/src/mini/ota.rs:66-139 | five lines, padded with zero bytes to one byte more than the header area, are such a file |
| OtaFailures.EndlessHeaderFits | meta-carlinkit/recipes-bsp/carlinkit-otalib/src/mini/ota.rs:56-56 | those lines fit into the header area, so that there is such a file |
| OtaWrapping.WrappedIsReversed | meta-carlinkit/recipes-bsp/carlinkit-otalib/src/mini/ota.rs:93-98 | for every described part and every offset: its end wraps around if and only if it then lies before its start, so that the slice is out of order |
| OtaWrapping.OutOfOrderIff | meta-carlinkit/recipes-bsp/carlinkit-otalib/src/mini/ota.rs:66-98 | for every file: the parser slices a section backwards if and only if its text describes a section, reached before an overrun or an endless checksum, whose end is at or above 2^32 and, modulo 2^32, not behind the end of the file |
| OtaWrapping.PanicsIff | meta-carlinkit/recipes-bsp/carlinkit-otalib/src/mini/ota.rs:192-218 | for every file: the extractor panics if and only if one of the two conditions holds |
| OtaWrapping.WrappingSizePanics | meta-carlinkit/recipes-bsp/carlinkit-otalib/src/mini/ota.rs:93-98 | any file that begins with a name and a size which brings the end of the header area to 2^32, or above it by no more than the length of the file, is such a file |
| Mmap.WriteIfDifferent | meta-carlinkit/recipes-bsp/carlinkit-otalib/src/nostd/small_fd.rs:194-217 | same final memory as an unconditional copy for every offset, length and block size from one; no store to an equal chunk; sync if and only if memory changed |
| Mmap.Read | meta-carlinkit/recipes-bsp/carlinkit-otalib/src/nostd/small_fd.rs:188-192 | the target slice becomes the memory slice, the rest of the buffer is unchanged |
| Flash.FlattenSplice | meta-carlinkit/recipes-bsp/carlinkit-otalib/src/flash.rs:142-162 | writing inside one partition writes at the corresponding place of the flat image, for every split |
| Flash.Chip.WriteLegacy | meta-carlinkit/recipes-bsp/carlinkit-otalib/src/flash.rs:123-166 | whatever happens a prefix of the data has been written and nothing outside its range has changed; success means all of it |
| Flash.Chip.Write | meta-carlinkit/recipes-bsp/carlinkit-otalib/src/flash.rs:110-172 | success: old prefix, data, old suffix; failure: a prefix of the data in place of the old bytes; when exactly it succeeds; an end that wraps around passes the size check, writes nothing, and is a success or a panic |
| Flash.Chip.ReadLegacy | meta-carlinkit/recipes-bsp/carlinkit-otalib/src/flash.rs:186-227 | on success the buffer is the slice of the flat image, over all partitions |
| Flash.Chip.Read | meta-carlinkit/recipes-bsp/carlinkit-otalib/src/flash.rs:174-232 | on success the buffer is the slice of the flat image; when exactly it succeeds; an end that wraps around passes the size check, reads nothing, and is a success or a panic |
| Flash.ReadAfterWrite | meta-carlinkit/recipes-bsp/carlinkit-otalib/src/flash.rs:110-232 | reading what was written gives it back, in every working layout, unless its end wraps around |
| Flash.LayoutIff | meta-carlinkit/recipes-bsp/carlinkit-otalib/src/flash.rs:81-108 | which sizes of the four partitions make a chip Modern, Legacy, LegacyUltraNor or LegacyUltraNand, exactly |
| Flash.Chip.FlatIs | meta-carlinkit/recipes-bsp/carlinkit-otalib/src/flash.rs:110-232 | the flat image is the first partition of a modern chip, and otherwise all four, one behind the other |
| Flash.Chip.Backup | meta-carlinkit/recipes-bsp/carlinkit-otalib/src/flash.rs:242-248 | a backup is the whole image |
| Flash.Chip.FlashNosign | meta-carlinkit/recipes-bsp/carlinkit-otalib/src/flash.rs:250-256 | flashing replaces the whole image |
| Flash.ThreePartitionsAreOffline | meta-carlinkit/recipes-bsp/carlinkit-otalib/src/flash.rs:81-172 | a three-partition chip is recognised as Legacy although the fourth size file, which reading and writing insist on, is not readable |
| Storage.RenameOver | meta-carplay/recipes-connectivity/bluez5/0005-storage-use-atomic-no-op-writes.patch:455-456 | renaming over the target adds exactly one thing that may be found there after a power cut |
| Storage.RebootIsPossible | meta-carplay/recipes-connectivity/bluez5/0005-storage-use-atomic-no-op-writes.patch:354-482 | a power cut makes one of the possibilities real and leaves no others |
| AtomicWrite.WriteAll | meta-carplay/recipes-connectivity/bluez5/0005-storage-use-atomic-no-op-writes.patch:431-444 | for every schedule of short writes and EINTR the draft holds a prefix of the payload, all of it on success; no other name changes |
| AtomicWrite.Settle | meta-carplay/recipes-connectivity/bluez5/0005-storage-use-atomic-no-op-writes.patch:458-472 | after the rename the target is the payload; a successful return is durable if and only if the directory has a name and its last call was obeyed, and else the old contents may still be found; a failed one means that the sync failed |
| AtomicWrite.Replace | meta-carplay/recipes-connectivity/bluez5/0005-storage-use-atomic-no-op-writes.patch:421-482 | from mkstemp to the end, at every crash point: target old or new, other names untouched; the mode is that of the replaced file exactly if `stat` reported one; the temporary name is gone after a success and after a failure whose unlink was obeyed |
| AtomicWrite.SetContents | meta-carplay/recipes-connectivity/bluez5/0005-storage-use-atomic-no-op-writes.patch:354-482 | the payload is the first `length` bytes, or those before the first NUL if the length is negative; at every crash point and for every schedule the target is the old or exactly the new contents; success shows the payload, and nothing else may ever be found if and only if the directory could be opened and synced or, with unchanged contents, nothing else could be found before; failures before the rename and unchanged contents leave it alone; the mode is kept; an undisturbed call makes it durable |
| AtomicWrite.NamesOfPath | meta-carplay/recipes-connectivity/bluez5/0005-storage-use-atomic-no-op-writes.patch:395-412 | `dir/base` is replaced in `dir` under the name `base`, a name without a slash in "." |
| AtomicWrite.TooLongIff | meta-carplay/recipes-connectivity/bluez5/0005-storage-use-atomic-no-op-writes.patch:399-419 | a path is refused as too long exactly when the template of the temporary file has no room in 4096 bytes |
| AtomicWrite.OldOrNewThroughout | meta-carplay/recipes-connectivity/bluez5/0005-storage-use-atomic-no-op-writes.patch:354-482 | over any history of calls and power cuts, what may be found is what might have been found before or a payload handed over since |
| AtomicWrite.DurableIsForever | meta-carplay/recipes-connectivity/bluez5/0005-storage-use-atomic-no-op-writes.patch:458-472 | once a write is durable only it or a later one is ever found |
| AtomicWrite.SuccessNeedNotBeDurable | meta-carplay/recipes-connectivity/bluez5/0005-storage-use-atomic-no-op-writes.patch:455-472 | after the rename without a directory sync the payload is visible and yet nothing at all may be found after a power cut |
| AtomicWrite.RetryReportsSuccess | meta-carplay/recipes-connectivity/bluez5/0005-storage-use-atomic-no-op-writes.patch:354-420 | in that state a further call with the same contents succeeds after its first system call, and still nothing at all may be found |
| PythonHex.ParseOfFormat | meta-sunxi/recipes-kernel/sunxi-flasher/files/cpbox_client.py:443-446 | every number printed with the 08X format reads back through int(..., 16), negative and wide ones included |
| PythonHex.EightDigits | meta-sunxi/recipes-kernel/sunxi-flasher/files/cpbox_client.py:511-511 | a number below 2^32 is printed as its eight hex digits in upper case, the highest first |
| PythonHex.ParsedFits | meta-sunxi/recipes-kernel/sunxi-flasher/files/cpbox_client.py:443-446 | what eight characters can say fits into eight characters |
| HexSyntax.ParseHexIff | meta-sunxi/recipes-kernel/sunxi-flasher/files/cpbox_client.py:438-446 | which texts int(..., 16) takes for which number, for all of them: digits of either case with single underscores between them, behind an optional sign and 0x, and blanks around |
| CpioParser.ParseEntryAt | meta-sunxi/recipes-kernel/sunxi-flasher/files/cpbox_client.py:435-474 | one turn of the parser at any offset, with Python's slices and indices and all error cases in order |
| CpioParser.Parse | meta-sunxi/recipes-kernel/sunxi-flasher/files/cpbox_client.py:429-482 | the loop returns the specified entries or the first error, and runs for ever when it comes back to an offset where it has been |
| CpioParser.RunsForeverIff | meta-sunxi/recipes-kernel/sunxi-flasher/files/cpbox_client.py:433-471 | the parser runs for ever if and only if two of its first 2n + 2 offsets are the same, for an input of n bytes |
| CpioParser.NoLastTurn | meta-sunxi/recipes-kernel/sunxi-flasher/files/cpbox_client.py:433-471 | and that is to run for ever: after any number of turns there is another one |
| CpioParser.ForwardEnds | meta-sunxi/recipes-kernel/sunxi-flasher/files/cpbox_client.py:433-471 | if no entry that is met has a negative size, every turn moves on and the parser ends |
| Cpio.CheckSumAdds | meta-sunxi/recipes-kernel/sunxi-flasher/files/cpbox_client.py:466-467 | the checksum of data is the sum of the bytes modulo 2^32 |
| Cpio.NormalizedIff | meta-sunxi/recipes-kernel/sunxi-flasher/files/cpbox_client.py:500-506 | recomputed are exactly the two sizes and the check, which is the sum in the CRC format and zero otherwise |
| CpioFormat.TurnIff | meta-sunxi/recipes-kernel/sunxi-flasher/files/cpbox_client.py:435-471 | one turn takes an entry if and only if it stands there, negative sizes aside: magic, thirteen fields of eight characters, name and NUL, data at a multiple of four, and in the CRC format its checksum |
| CpioFormat.AcceptedIff | meta-sunxi/recipes-kernel/sunxi-flasher/files/cpbox_client.py:429-482 | an input is accepted as these entries if and only if they stand one behind the other from its start, sw-description first, the trailer last and no name twice, and then come zeros up to a multiple of 4096; negative sizes aside |
| CpioSoundness.BackwardEntryRunsForever | meta-sunxi/recipes-kernel/sunxi-flasher/files/cpbox_client.py:433-471 | the 125 bytes of one entry called sw-description with size -128 keep the parser at offset 0 for ever |
| CpioSoundness.ParsedIsOk | meta-sunxi/recipes-kernel/sunxi-flasher/files/cpbox_client.py:429-482 | whatever is accepted has thirteen fields each and is ordered, and every field and length is in range if the input is shorter than 2^32 - 1 bytes |
| CpioRoundTrip.PrintedReadsBack | meta-sunxi/recipes-kernel/sunxi-flasher/files/cpbox_client.py:500-514 | a printed entry at any multiple of four reads back as itself with sizes and check recomputed, whatever comes before and after it, for all name and data lengths |
| CpioRoundTrip.ArchiveReadsBack | meta-sunxi/recipes-kernel/sunxi-flasher/files/cpbox_client.py:429-517 | parsing a rebuilt well-formed archive gives the same magics, names, data and fields, sizes and checks normalised |
| CpioRoundTrip.ParsedIsWellFormed | meta-sunxi/recipes-kernel/sunxi-flasher/files/cpbox_client.py:429-482 | whatever the parser accepts is well-formed, for inputs shorter than 2^32 - 1 bytes |
| CpioRoundTrip.RepackIsStable | meta-sunxi/recipes-kernel/sunxi-flasher/files/cpbox_client.py:429-517 | rebuilding what was parsed parses again and rebuilds to the same bytes |
| CpioRoundTrip.ArchiveDetermines | meta-sunxi/recipes-kernel/sunxi-flasher/files/cpbox_client.py:500-517 | well-formed archives with the same bytes hold the same members |
| CpioRoundTrip.ReplacedReadsBack | meta-sunxi/recipes-kernel/sunxi-flasher/files/cpbox_client.py:493-498 | after replacing a member by data below 2^32 bytes the archive keeps order and names, parses to its normal form and reproduces itself |
| CpioRoundTrip.CpioArchive.Member | meta-sunxi/recipes-kernel/sunxi-flasher/files/cpbox_client.py:487-491 | succeeds exactly for a name held by one entry, with its data |
| CpioRoundTrip.CpioArchive.ReplaceMember | meta-sunxi/recipes-kernel/sunxi-flasher/files/cpbox_client.py:493-498 | succeeds exactly for a name held by one entry and changes only its data |
| CpioRoundTrip.CpioArchive.Repack | meta-sunxi/recipes-kernel/sunxi-flasher/files/cpbox_client.py:500-517 | the padding loop prints the specified archive |
| Swu.XorInvolution | meta-sunxi/recipes-kernel/sunxi-flasher/files/cpbox_client.py:832-833 | the XOR layer undoes itself, for every 256-byte key |
| Swu.XorAt | meta-sunxi/recipes-kernel/sunxi-flasher/files/cpbox_client.py:832-833 | every bit of a byte is that of the data or that of the key, which is repeated every 256 bytes, but not of both |
| Swu.UnpackOfEnvelope | meta-sunxi/recipes-kernel/sunxi-flasher/files/cpbox_client.py:391-404 | unpacking a wrapped archive gives it back |
| Swu.UnpackIff | meta-sunxi/recipes-kernel/sunxi-flasher/files/cpbox_client.py:391-400 | an envelope is accepted as an archive if and only if it consists of the 32 hex digits of its MD5, in either case, the title and the archive |
| Swu.RebuiltTrailer | meta-sunxi/recipes-kernel/sunxi-flasher/files/cpbox_client.py:835-857 | a rebuilt archive with an empty trailer passes the trailer check if and only if the trailer is in CRC format |
| Swu.CheckTrailerIff | meta-sunxi/recipes-kernel/sunxi-flasher/files/cpbox_client.py:835-857 | the trailer check is passed if and only if the last occurrence of the name stands behind a CRC-format header whose fields say eleven bytes of name and no data, and only zeros follow |
| Swu.RebuiltOpens | meta-sunxi/recipes-kernel/sunxi-flasher/files/cpbox_client.py:823-857 | decrypting, unwrapping, parsing and reproducing a rebuilt image gives the members it was built from |
| SwuRepacker.OpenImage | meta-sunxi/recipes-kernel/sunxi-flasher/files/cpbox_client.py:1065-1070 | decryption, envelope, parser and reproduction check, with the first failure |
| SwuRepacker.PlanIff | meta-sunxi/recipes-kernel/sunxi-flasher/files/cpbox_client.py:1071-1088 | an archive is patched if and only if it has the members customer and kernel and all tools agree; the metadata and the customer member get what the patchers make of them, everything else is as it was |
| SwuRepacker.Rebuild | meta-sunxi/recipes-kernel/sunxi-flasher/files/cpbox_client.py:1056-1107 | an empty input and one over 512 MiB are refused; once the input opens and patchers and validators agree, for members below 2^32 bytes and an empty trailer no later step can fail, and the output opens to the same archive with the two members replaced |
| Mips.DecodeOfEncode | meta-carlinkit-mini/recipes-bsp/carlinkit-mini-flasher/files/trampoline.py:65-82 | the processor sees exactly the instruction that was encoded |
| Mips.ITypeOrs | meta-carlinkit-mini/recipes-bsp/carlinkit-mini-flasher/files/trampoline.py:65-66 | or-ing the masked and shifted fields of an immediate instruction is adding them, as the encoder of the model does |
| Mips.RTypeOrs | meta-carlinkit-mini/recipes-bsp/carlinkit-mini-flasher/files/trampoline.py:68-70 | the same for a register instruction |
| Trampoline.BuildLinuxMips | meta-carlinkit-mini/recipes-bsp/carlinkit-mini-flasher/files/trampoline.py:93-124 | the bytes are those of five loads, the jump and its delay slot |
| Trampoline.CodeIsFetched | meta-carlinkit-mini/recipes-bsp/carlinkit-mini-flasher/files/trampoline.py:124-124 | a memory that holds the bytes has the processor fetch the instructions |
| Trampoline.LoadExecutes | meta-carlinkit-mini/recipes-bsp/carlinkit-mini-flasher/files/trampoline.py:85-91 | executing a load puts the 32-bit value into its register and moves on |
| Trampoline.ProgramExecutes | meta-carlinkit-mini/recipes-bsp/carlinkit-mini-flasher/files/trampoline.py:93-124 | from an aligned address the program arrives at the kernel entry with a0 to a3 loaded |
| BootArgs.Build | meta-carlinkit-mini/recipes-bsp/carlinkit-mini-flasher/files/trampoline.py:18-59 | the argument block, or failure exactly when its pointers do not fit into 32 bits |
| BootArgs.BlockIsRead | meta-carlinkit-mini/recipes-bsp/carlinkit-mini-flasher/files/trampoline.py:18-59 | following the pointers gives "linux", the command line up to its first NUL (all of it if and only if it has none), a NULL-terminated argv and an empty envp |
| Boot.OverlapIsSharing | meta-carlinkit-mini/recipes-bsp/carlinkit-mini-flasher/files/recov.py:385-386 | regions overlap if and only if they share an address |
| Boot.CheckRegions | meta-carlinkit-mini/recipes-bsp/carlinkit-mini-flasher/files/recov.py:460-476 | accepted if and only if all regions are non-empty, in RAM and pairwise disjoint; every complaint is justified |
| Boot.SafeMapIff | meta-carlinkit-mini/recipes-bsp/carlinkit-mini-flasher/files/recov.py:460-476 | a boot map is safe if and only if every blob has bytes, all of them in RAM, and no address belongs to two blobs |
| Boot.HalvesRejoin | meta-carlinkit-mini/recipes-bsp/carlinkit-mini-flasher/files/recov.py:189-190 | the two halves of an address make it up again |
| Boot.Device.BulkWrite | meta-carlinkit-mini/recipes-bsp/carlinkit-mini-flasher/files/recov.py:218-241 | succeeds if and only if the transfers take all the data; then it is stored, else a proper prefix is, and nothing else changes |
| Boot.Device.DownloadBlob | meta-carlinkit-mini/recipes-bsp/carlinkit-mini-flasher/files/recov.py:247-259 | succeeds if and only if the transfers take the blob, which is then stored at its address; the read-back check cannot fail |
| Boot.UploadAll | meta-carlinkit-mini/recipes-bsp/carlinkit-mini-flasher/files/recov.py:519-547 | all blobs of an accepted map are held afterwards, none damaged by a later one; nothing outside the regions changes; enough transfers that each take something make it succeed |
| Boot.Boot | meta-carlinkit-mini/recipes-bsp/carlinkit-mini-flasher/files/recov.py:440-476 | a map that is not safe is refused with nothing written; otherwise all four blobs are held or a write failed, which does not happen if there are enough transfers that each take something |
| Boot.BootReachesKernel | meta-carlinkit-mini/recipes-bsp/carlinkit-mini-flasher/files/trampoline.py:18-124 | the processor reaches the kernel entry with each of registers 4 to 7 holding the argument asked for, or else that of the firmware, if and only if the trampoline is word-aligned; a1 leads to "linux" and the command line, and kernel and initramfs are where they belong |
| Boot.MisalignedBoot | meta-carlinkit-mini/recipes-bsp/carlinkit-mini-flasher/files/recov.py:440-476 | a boot with the trampoline at an odd address passes the region check and starts the processor there |
| Props.ValidateIsStable | meta-carlinkit/recipes-bsp/carlinkit-otalib/src/web/props.rs:260-290 | a stored value is a fixed point of validation |
| Props.ValidateIff | meta-carlinkit/recipes-bsp/carlinkit-otalib/src/web/props.rs:260-308 | what is stored for a value, or why it is refused: a bool stores "true" for "true" and "1", "false" for "false" and "0"; an int the number that its text denotes, if in range; a string any text without tab and line end of a byte length in range; an enum a listed value; and nothing else is accepted |
| Props.ParsePropsFile | meta-carlinkit/recipes-bsp/carlinkit-otalib/src/web/props.rs:164-178 | the loop returns the properties of all lines or the first error |
| Props.SerializePropsFile | meta-carlinkit/recipes-bsp/carlinkit-otalib/src/web/props.rs:306-323 | the loop prints title and lines |
| PropsSyntax.TypeIff | meta-carlinkit/recipes-bsp/carlinkit-otalib/src/web/props.rs:199-258 | the two fields of a type are accepted exactly if they specify it |
| PropsSyntax.LineIff | meta-carlinkit/recipes-bsp/carlinkit-otalib/src/web/props.rs:180-197 | a line is accepted if and only if it has a name, a type, its specification and a value with a tab between each, and then the property is the one it says |
| PropsSyntax.FileIff | meta-carlinkit/recipes-bsp/carlinkit-otalib/src/web/props.rs:164-178 | a file is accepted if and only if all its lines are that are neither blank nor comments, and then it holds their properties in order |
| PropsSyntax.FileIsPrinted | meta-carlinkit/recipes-bsp/carlinkit-otalib/src/web/props.rs:306-323 | a file begins with the comment that names the fields, and each property adds its line and a line end |
| PropsSyntax.LineIsPrinted | meta-carlinkit/recipes-bsp/carlinkit-otalib/src/web/props.rs:306-332 | the exact line that is printed for a property of each type |
| PropsRoundTrip.TypeReadsBack | meta-carlinkit/recipes-bsp/carlinkit-otalib/src/web/props.rs:199-258 | a well-formed type reads back from its printed fields |
| PropsRoundTrip.FileReadsBack | meta-carlinkit/recipes-bsp/carlinkit-otalib/src/web/props.rs:164-323 | a file of well-formed properties with representable values reads back as it was |
| PropsRoundTrip.FileIsReadIff | meta-carlinkit/recipes-bsp/carlinkit-otalib/src/web/props.rs:164-323 | the saved file of well-formed properties is readable if and only if every value is not blank and valid for its type without the white space at its end; then that is what is read |
| PropsRoundTrip.ParsedAreOk | meta-carlinkit/recipes-bsp/carlinkit-otalib/src/web/props.rs:164-197 | whatever the parser accepts is well-formed and representable |
| PropsRoundTrip.BlankValueSpoilsFile | meta-carlinkit/recipes-bsp/carlinkit-otalib/src/web/props.rs:164-197 | one blank value makes the whole file unreadable |
| PropStore.LoadedIsOk | meta-carlinkit/recipes-bsp/carlinkit-otalib/src/web/props.rs:43-54 | a loaded store has the names and types of its definitions, and every value is valid and representable |
| PropsSyntax.StartIff | meta-carlinkit/recipes-bsp/carlinkit-otalib/src/web/props.rs:43-55 | the definitions are what the text of their file describes, or none; a file that describes nothing changes nothing, and any other overrides with what it describes |
| PropStore.RestartRestores | meta-carlinkit/recipes-bsp/carlinkit-otalib/src/web/props.rs:43-79 | with unique names a restart restores the saved store if and only if every value is non-empty and does not end in white space |
| PropStore.RestartOutcome | meta-carlinkit/recipes-bsp/carlinkit-otalib/src/web/props.rs:43-79 | what a restart makes of every store: each value without the white space at its end, or the defaults for all if one value is blank or no longer valid without it |
| PropStore.BlankValueLosesAll | meta-carlinkit/recipes-bsp/carlinkit-otalib/src/web/props.rs:43-54 | after saving one blank value a restart is back at the defaults for every property |
| PropStore.Store.Load | meta-carlinkit/recipes-bsp/carlinkit-otalib/src/web/props.rs:43-54 | loading establishes the invariant and the specified properties |
| PropStore.Store.ApplyOverrides | meta-carlinkit/recipes-bsp/carlinkit-otalib/src/web/props.rs:129-143 | each override counts for the first property of its name if type and value agree |
| PropStore.OverrideEffect | meta-carlinkit/recipes-bsp/carlinkit-otalib/src/web/props.rs:129-162 | an override sets the value of the first property of its name if the types are the same and the value is accepted, and changes nothing else |
| PropStore.LastOverrideCounts | meta-carlinkit/recipes-bsp/carlinkit-otalib/src/web/props.rs:129-143 | with unique names a property gets the value of the last override of its name and type |
| PropStore.Store.Get | meta-carlinkit/recipes-bsp/carlinkit-otalib/src/web/props.rs:60-62 | the value of the first property of that name, if any |
| PropStore.Store.WritePropsFile | meta-carlinkit/recipes-bsp/carlinkit-otalib/src/web/props.rs:334-350 | succeeds if and only if creating, truncating and every write are obeyed and the writes take all bytes; then the file is exactly the new text; after a failure it is what the replies let through, byte for byte: as it was, created but not resized, or the front of the new text over the old bytes cut or extended to its length |
| PropStore.Store.Set | meta-carlinkit/recipes-bsp/carlinkit-otalib/src/web/props.rs:64-79 | every outcome, as a function of the replies of the system: an unknown name and a value that its type refuses are reported and change nothing; any other value is stored as its type says if the write succeeds, and a write that fails leaves the properties as before and the file as the replies let it; names and types never change |
| PropFailures.TornValue | meta-carlinkit/recipes-bsp/carlinkit-otalib/src/web/props.rs:334-350 | a write that stops inside a value leaves a well-formed file in which the value begins as the new and ends as the old one, if both halves take as many bytes |
| PropFailures.FailedSetMixesValues | meta-carlinkit/recipes-bsp/carlinkit-otalib/src/web/props.rs:64-79 | a set that fails so keeps the old value in memory and reports the failure, and the next start loads the third value if that is valid |
| PropFailures.TwentyIsMixed | meta-carlinkit/recipes-bsp/carlinkit-otalib/src/web/props.rs:260-290 | an integer from 0 to 100 that is 10 and is set to 25 has such a third value: 20 |
| Http.SlicesIff | meta-carlinkit/recipes-bsp/carlinkit-otalib/src/web/mod.rs:251-261 | slicing a line at byte 15 ends the program exactly when that would cut a character in two |
| HttpPanic.PanicsIff | meta-carlinkit/recipes-bsp/carlinkit-otalib/src/web/mod.rs:251-261 | for every header: reading the content length panics if and only if it is text and some line, trimmed, is cut inside a character at byte 15 and no earlier line states a length |
| HttpPanic.CrashedIff | meta-carlinkit/recipes-bsp/carlinkit-otalib/src/web/mod.rs:187-213 | the reader crashes if and only if a complete header with such a line has arrived |
| HttpPanic.AccentCrashes | meta-carlinkit/recipes-bsp/carlinkit-otalib/src/web/mod.rs:251-261 | fourteen letters and an accented one, as the whole header, crash the reader |
| Http.FindMarker | meta-carlinkit/recipes-bsp/carlinkit-otalib/src/web/mod.rs:236-249 | the search loop returns the first occurrence, if there is one |
| Http.ParseContentLength | meta-carlinkit/recipes-bsp/carlinkit-otalib/src/web/mod.rs:251-261 | the line loop returns what the first matching line says, or the panic before it |
| HttpLength.StatedIff | meta-carlinkit/recipes-bsp/carlinkit-otalib/src/web/mod.rs:251-261 | for every header: the length is that of the first line, trimmed, which begins with content-length: in any case of its letters, if no line before it is cut inside a character; it is a number below 2^32 or none |
| HttpLength.RequestIff | meta-carlinkit/recipes-bsp/carlinkit-otalib/src/web/mod.rs:187-213 | for all bytes that arrive: a request is received if and only if its header and as many bytes as it states are there; without a stated number it ends with the header; the sum wraps at 2^32 |
| Http.Connection.Read | meta-carlinkit/recipes-bsp/carlinkit-otalib/src/web/mod.rs:191-195 | a read delivers the front of what is pending, never nothing while something is |
| Http.ReadRequest | meta-carlinkit/recipes-bsp/carlinkit-otalib/src/web/mod.rs:187-213 | the outcome is a function of the byte stream and the capacity alone, the same for every fragmentation, and the request is the front of the buffer |
| Http.ParseHttpRequest | meta-carlinkit/recipes-bsp/carlinkit-otalib/src/web/mod.rs:215-234 | a buffer is accepted as a request if and only if it begins with `method SP path SP version CR LF`, the path beginning with a slash and the version with HTTP/1., and the request is that method, that path and what follows the first blank line |
| Http.BodyIsContentLength | meta-carlinkit/recipes-bsp/carlinkit-otalib/src/web/mod.rs:187-261 | an accepted request has a body of exactly the parsed Content-Length (section 6.2 of RFC 9112), none if there is none; lengths that wrap around are never accepted |
| Http.SentIsReceived | meta-carlinkit/recipes-bsp/carlinkit-otalib/src/web/mod.rs:187-234 | a request that fits, with a stated length or with none and no body, is received whole, whatever the pieces and whatever follows, and parsed into the method, the path and the body that were sent |

## Left out

- Names and paths are UTF-8 bytes: `from_utf8_lossy` on invalid input in `short_name` is not modelled.
- `usize` is 32 bits wide and sums wrap around, as in a build without overflow checks: section ends in `parse_ota`, the size of a packed file, ranges in the flash and the request size in `read_request`. What holds for files and requests in memory is stated for lengths below 2^32 (`OtaRoundTrip.PackThenParse`).
- Flash.Chip: `stat_partition`'s panic on a size file that is not a number is not modelled; a size file is readable with the right size or not readable.
- Flash signing, `softbrick` and `flash_fitimage`: they call code outside the core or do nothing.
- Storage: one directory; creating missing parent directories is not modelled, and file numbers are never reused.
- AtomicWrite.SetContents: the names picked by `mkstemp` are parameters; error objects and log messages are not modelled.
- CpioRoundTrip.ParsedIsWellFormed: stated for archives shorter than 2^32 - 1 bytes; in a longer one a negative size can select more data than eight digits can count. The rebuild refuses inputs over 512 MiB.
- CpioRoundTrip.RepackIsStable: the same bound.
- CpioParser: the memory that an endless parse uses up is not modelled.
- SwuRepacker.Rebuild: the metadata and squashfs patchers and validators are parameters; the path checks, the atomic save and reading the saved file back are not modelled. For a trailer that carries data nothing is claimed about the encryption step, since the check then depends on what the data contain.
- Swu: the device key is a parameter of 256 bytes; AES, zlib and downloads are not modelled.
- Boot.Boot: loading and starting the first-stage program, re-enumeration, cache flushing and the SSH probe are not modelled; the memory before the upload is arbitrary. The uImage header parser and the text that appends the initramfs address to the command line are not modelled: kernel payload, addresses and command line are parameters.
- Mips: only the instructions the trampoline uses; any other word faults.
- PropStore: reading a file either succeeds with all its bytes or fails; JSON output is not modelled.
- Http: responses and request routing are not modelled; sums are taken modulo 2^32 as in a build without overflow checks.
- Config formatters, sysctl, radio and HWID readers, telnet, HTML, boot orchestration, the kernel driver patches, the image signers and the Yocto metadata: sequences of system effects, external tools or easy text output.
