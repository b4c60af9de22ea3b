# Verified model of uefi-rs

A Dafny model of the parts of uefi-rs whose correctness is not visible in any
single function: the device path node generator and the paths built with it,
the global allocator, the firmware handshakes, the string types, the log writer
and the sorting of memory maps.

`dafny verify dfyconfig.toml` checks the whole project.

## How the model is laid out

| files | what they model |
|---|---|
| `Bytes.dfy`, `Uefi.dfy` | bytes, little-endian words, status codes |
| `NodeSpec.dfy`, `NodeBuild.dfy`, `NodeParse.dfy`, `NodeEnum.dfy` | the generator: specifications, the emitted `size_in_bytes` and `write_data`, the emitted `TryFrom` and accessors, the node enum |
| `AcpiExpanded.dfy`, `CustomNodes.dfy` | nodes with hand-written code |
| `DevicePaths.dfy`, `PathInstances.dfy` | the path builder, paths from bytes, both iterators |
| `BootServices.dfy`, `Allocator.dfy`, `Boxed.dfy` | firmware memory, the global allocator, `make_boxed` |
| `ExitBoot.dfy`, `VariableKeys.dfy` | leaving boot services, iterating over variables |
| `Ucs2.dfy`, `Latin1.dfy`, `Unaligned.dfy` | string types and unaligned slices |
| `Logging.dfy` | the decorating log writer |
| `MemoryMapSort.dfy` | quicksort of a memory map |

Firmware is an arbitrary function of the state it can see and of the number of
the call, constrained only by what the UEFI Specification 2.10 demands: regions
that are live never overlap (section 7.2), a memory map key belongs to one map
(section 7.4.6), names are found again from the previous name (section 8.2.2).
A theorem about every such function is a theorem about every conforming
firmware. A panic is a result value (`None`, `panicked`, `Panicked`). Integers
are unbounded; machine limits (`u16` node lengths, `isize::MAX` layouts, 64-bit
addresses) are written out. A value of a node field is its bytes in memory,
because every byte pattern is a valid value of every base type.

## What turned out not to hold

Each of these has a lemma or contract with the exact condition.

- `DevicePathBuilder::push` documents an error for an END_ENTIRE node; the code
  has no such check. Iterating over a built path gives back the pushed nodes if
  and only if none of them is END_ENTIRE (`BuildAndIterate`,
  `PushedEndNodeIsLost`).
- The generator accepts specifications whose builder is wrong. A fixed-size field
  between two slices is written over the first slice, and a size function on a
  fixed-size field makes the node longer than what is written. `write_data`
  initialises every byte exactly once if and only if no slice bytes come before a
  fixed-size field and, next to a slice, those size functions return zero
  (`WritesOnceIff`, `SplitGroupOverwrites`, `SizedByteLeavesGap`). All values of a
  specification are fine if and only if it has no such field, or has one only where
  the node has no room for the bytes that would do harm (`AllValuesIff`). The
  specification file has none.
- A group of several slices is read through one `[u8]` whose length is counted
  in elements of the last slice. It covers the group if and only if that element
  is one byte or the group is empty (`GroupReadsBackExactlyForBytes`,
  `WordGroupIsTruncated`). The one group in the specification file is of bytes.
- A HardDrive signature reads back as built if and only if it is not `Unknown`
  with a type number up to two (`HardDriveSignatureRoundTripIff`,
  `UnknownTypeZeroIsLost`).
- The three strings of an Expanded ACPI node come back if and only if each has
  no null but a last one and a string without its null is followed by empty ones
  (`ExpandedRoundTrip`, `MissingNulMergesStrings`).
- `allocate_pool` keeps a region that the firmware grants at address zero
  allocated while reporting an error. This is the only way the allocator loses
  memory, it happens if and only if the firmware answers so, and at most once
  (`Alloc`, `AtMostOneLeak`, `ConformingFirmwareMayLeak`).
- `make_boxed` leaves the heap unchanged on every error path if and only if the
  firmware does not grant its memory at address zero (`MakeBoxed`).
- `make_boxed` asks the allocator for no bytes, which `GlobalAlloc::alloc` forbids,
  if and only if the first call asks for none (`MakeBoxed`).
- A box is dropped with the layout it was allocated with if and only if both
  fetch calls agree on the padded length (`DropMatchesAllocationIff`). Its region
  is released all the same unless the box is empty or consists of fewer whole
  pages than were allocated (`Drop`, `ShorterPagesAreNotReleased`).
- `UnalignedSlice::to_vec` panics if and only if the vector reserves more than
  was asked for (`ToVec`).
- The log writer passes text on unchanged if and only if no chunk contains a
  carriage return followed by a line feed (`TextSurvivesIff`, `CrLfLosesItsCr`).
- `sort` panics if and only if the memory map is empty (`Sort`).

## Model

| member | source | states |
|---|---|---|
| NodeSpec.CalculateStaticSize | xtask/src/device_path/node.rs:92-101 | the fold over the fields is the offset of the end of the fixed part, and is rejected when it is not a u16 |
| NodeSpec.LoneSliceIsLast | xtask/src/device_path/node.rs:78-88 | in a specification that compiles, a slice that is not part of a group is the last field and the only slice |
| NodeSpec.SpecFileSizes | xtask/src/device_path/field.rs:35-63 | the base types have the sizes with which nodes of the specification file that use them pass their own size check |
| NodeBuild.GenerateWriteData | xtask/src/device_path/node.rs:395-466 | the pass with a running `field_offset` emits, for every field, the statements at the field's packed offset |
| NodeBuild.FieldStarts | xtask/src/device_path/node.rs:407-463 | the constant offset plus the run-time group offset is where the bytes of the earlier fields end, short of it by the slice bytes before a fixed-size field |
| NodeBuild.GeneratedCodeCorrect | xtask/src/device_path/node.rs:395-466 | for every specification that compiles and every value, as long as no bytes of a slice come before a fixed-size field, running the emitted statements writes the fields in order and every write begins where the previous one ended |
| NodeBuild.WritesOnceIff | xtask/src/device_path/node.rs:367-487 | for every specification that compiles and every value whose size is a u16, each byte of the node is written exactly once, and no other byte, if and only if no slice bytes come before a fixed-size field and no size function of a fixed-size field adds to the size |
| NodeBuild.AllValuesIff | xtask/src/device_path/node.rs:367-487 | for every specification that compiles, `write_data` writes each byte once for all values whose size is a u16 if and only if a fixed-size field with bytes follows a slice only where the node has no room for an element of it, and next to a slice no fixed-size field has a size function unless the node has no room at all |
| NodeBuild.SplitGroupOverwrites | xtask/src/device_path/node.rs:416-431 | a byte between two slices: two statements write at offset four |
| NodeBuild.SizedByteLeavesGap | xtask/src/device_path/field.rs:297-308 | a byte with a size function: three bytes of the node are written by no statement |
| NodeBuild.SizeIsImageLength | xtask/src/device_path/node.rs:367-393 | for those values `size_in_bytes` is the length of the header plus all field bytes, and fails with NodeTooBig exactly when that is not a u16 |
| NodeBuild.Execute | xtask/src/device_path/node.rs:468-487 | every write of the emitted code is in range and hits only bytes that are still uninitialised |
| NodeBuild.WriteData | xtask/src/device_path/node.rs:468-487 | `write_data` initialises exactly the `size_in_bytes` bytes of the node, each once, with the node image, and touches nothing else |
| NodeParse.TryFromAccepts | xtask/src/device_path/node.rs:242-296 | a node is accepted exactly when type and subtype are right and its length is the static size, or for a trailing slice that plus whole elements; DifferentType exactly when the types are wrong |
| NodeParse.BuiltNodeIsAccepted | xtask/src/device_path/node.rs:242-296 | every built node without a group is accepted by its own `TryFrom` |
| NodeParse.AccessorsReadWhatWasBuilt | xtask/src/device_path/field.rs:245-293 | on a built node every accessor returns the bytes the builder was given for that field |
| NodeParse.GroupReadsBackExactlyForBytes | xtask/src/device_path/node.rs:242-261 | a built group is accepted exactly when it fills whole elements of its last slice, and is read in full exactly when that element is one byte or there is no data |
| NodeParse.WordGroupIsTruncated | xtask/src/device_path/node.rs:150-153 | a group of two u16 slices of which half cannot be read |
| NodeParse.RebuildParsedNode | xtask/src/device_path/field.rs:245-324 | the builder accepts what the accessors of a parsed node return, reports the size of that node, and gives its bytes except that hidden fields are zero |
| NodeParse.Rebuild | xtask/src/device_path/node.rs:468-487 | running the generated code on the accessors of a parsed node fills a buffer of its size with those bytes |
| NodeEnum.MatchingArmDecides | xtask/src/device_path/group.rs:165-177 | with distinct types the arm of the node's type decides, wherever it stands |
| NodeEnum.ArmAt | xtask/src/device_path/group.rs:165-177 | every node of every group has its arm, behind those of the nodes before it |
| NodeEnum.EnumAgreesWithVariants | xtask/src/device_path/group.rs:187-196 | over all groups with distinct pairs, the variant of a node of some group results exactly when its own conversion accepts; UnsupportedType exactly when no node of any group has the pair; InvalidLength exactly when one has it and does not accept |
| AcpiExpanded.NullIndicesAreTheFirstNuls | xtask/src/device_path/spec.rs:168-177 | each position found holds a null, they increase, and every null of the data is one of them or lies behind the third |
| AcpiExpanded.GetSubstr | xtask/src/device_path/spec.rs:186-221 | the substring is what cutting the data after each null gives, for any data |
| AcpiExpanded.SegmentsCoverPrefix | xtask/src/device_path/spec.rs:179-185 | the three substrings join to a prefix of the data, to all of it exactly when nothing follows a third null |
| AcpiExpanded.SegmentsRecoverIff | xtask/src/device_path/spec.rs:150-162 | the getters give back three joined strings exactly when these are recoverable |
| AcpiExpanded.MissingNulMergesStrings | xtask/src/device_path/spec.rs:186-221 | three strings of which the first has no null: its getter returns the first two joined |
| AcpiExpanded.ExpandedRoundTrip | xtask/src/device_path/spec.rs:113-162 | building and parsing the node gives back the numeric ids, and the strings exactly when they are recoverable |
| CustomNodes.HardDriveSignatureRoundTripIff | xtask/src/device_path/spec.rs:1049-1095 | a built signature is read back exactly when it is not Unknown with a type number of zero, one or two |
| CustomNodes.UnknownTypeZeroIsLost | xtask/src/device_path/spec.rs:1052-1067 | an Unknown signature of type zero reads back as none |
| CustomNodes.HardDriveSignatureOnWire | xtask/src/device_path/spec.rs:1069-1095 | the bytes of every built node: the signature with zeros behind it, sixteen zeros for none, the format and the type |
| CustomNodes.HardDriveSignatureFromWire | xtask/src/device_path/spec.rs:1049-1067 | what every accepted node reads as, by its last byte |
| CustomNodes.RestService.BuildSize | xtask/src/device_path/spec.rs:974-982 | the size function reports the length of what the build function writes |
| CustomNodes.BuildVendorGuidAndData | xtask/src/device_path/spec.rs:984-1002 | the GUID and the data fill the rest of the buffer, each byte once |
| CustomNodes.RestServiceVendorRoundTrip | xtask/src/device_path/spec.rs:914-932 | vendor data of any length reads back with its GUID, and none reads back as none |
| CustomNodes.RestServiceVendorFromWire | xtask/src/device_path/spec.rs:914-932 | every accepted node reads as vendor data exactly when its type is VENDOR and there are bytes for a GUID, otherwise as none, whatever follows |
| CustomNodes.FilePathRoundTrip | xtask/src/device_path/spec.rs:1153-1159 | a FilePath node built from any null-terminated UCS-2 string that fits, placed at any address, yields that string through `path_name` |
| CustomNodes.PathNameToCString16 | uefi/src/data_types/owned_strs.rs:174-202 | copying and checking such a slice gives the string |
| DevicePaths.NodeIterator.Next | uefi/src/proto/device_path/mod.rs:717-747 | the next node of the path is yielded, or the iteration is over for good at a stopping node or the end |
| DevicePaths.Collect | uefi/src/proto/device_path/mod.rs:553-558 | iteration yields exactly the nodes before the first stopping one |
| DevicePaths.SizeInBytesFromSlice | uefi/src/proto/device_path/mod.rs:501-522 | the loop computes the path size of any bytes, including both failures |
| DevicePaths.AcceptedIsPath | uefi/src/proto/device_path/mod.rs:630-637 | bytes that are accepted begin with valid nodes of which only the last ends the path |
| DevicePaths.PathIsAccepted | uefi/src/proto/device_path/mod.rs:630-637 | every such sequence of nodes is accepted with its exact size, whatever follows |
| DevicePaths.PathSizeIff | uefi/src/proto/device_path/mod.rs:501-522 | any bytes are accepted exactly when they start with a path; the length is invalid exactly when complete nodes are followed by too few bytes for a header or for the length in it; a length below four panics |
| DevicePaths.DevicePathBuilder.Push | uefi/src/proto/device_path/build.rs:106-130 | in a buffer or in a vector of any growth: a node that fits is appended byte for byte, otherwise the error says why and nothing changes; in a vector every node fits |
| DevicePaths.DevicePathBuilder.Finalize | uefi/src/proto/device_path/build.rs:137-151 | the result is the pushed nodes followed by the end node, or BufferTooSmall |
| DevicePaths.BuildPath | uefi/src/proto/device_path/build.rs:74-152 | a whole path is built exactly when every node fits in a u16 and, in a buffer, all of them fit |
| DevicePaths.BuildAndIterate | uefi/src/proto/device_path/build.rs:95-151 | iterating over a built path gives back the pushed nodes exactly when none ends the path, otherwise those before the first that does |
| DevicePaths.PushedEndNodeIsLost | uefi/src/proto/device_path/build.rs:99-106 | in a vector or a buffer of eight bytes a path is built from one END_ENTIRE node, and iterating over it gives back no node |
| DevicePaths.BuiltPathIsAccepted | uefi/src/proto/device_path/mod.rs:501-522 | a path built without such nodes converts back from its bytes in full |
| PathInstances.InstanceSize | uefi/src/proto/device_path/mod.rs:662-677 | the added lengths are the bytes up to and including the first end node |
| PathInstances.InstanceIterator.Next | uefi/src/proto/device_path/mod.rs:659-697 | the head is the first instance and what remains is the rest of the path |
| PathInstances.CollectInstances | uefi/src/proto/device_path/mod.rs:544-548 | the iterator yields the bytes of every instance in order |
| PathInstances.InstancesPartitionPath | uefi/src/proto/device_path/mod.rs:656-698 | the instances joined are the path: nothing lost, repeated or reordered |
| PathInstances.InstancesEndOnce | uefi/src/proto/device_path/mod.rs:346-349 | every instance has exactly one node of device type 0x7f, its last |
| PathInstances.ReadTwoInstances | uefi/src/proto/device_path/mod.rs:544-558 | on the bytes of any two lists of nodes with an end-instance node between them and an end node behind: exactly the two instances, and exactly the nodes of each |
| BootServices.BootServices.AllocatePages | uefi/src/boot.rs:148-190 | on success one region at a non-zero address that meets the request is added to the live set, on failure the live set is unchanged, also when the first region is at zero; the result is the first answer of the firmware, and exactly when that grants address zero the answer to the same request with that region still taken |
| BootServices.BootServices.AllocatePool | uefi/src/boot.rs:233-242 | the firmware's answer, with address zero turned into an error while the region stays live |
| BootServices.BootServices.FreePages | uefi/src/boot.rs:203-209 | exactly the named region is released, and success means it was live |
| BootServices.BootServices.FreePool | uefi/src/boot.rs:254-259 | exactly the pool region at that address is released |
| Allocator.PaddedOffset | uefi/src/allocator.rs:56-63 | the offset into an eight-byte aligned allocation is between eight and the alignment and gives an aligned address |
| Allocator.SizePlusAlign | uefi/src/allocator.rs:49-49 | size plus alignment of a layout does not overflow |
| Allocator.ReadBack | uefi/src/allocator.rs:161-165 | the word read below a block is the pointer that was stored there |
| Allocator.Session.AllocPoolAligned | uefi/src/allocator.rs:48-77 | an aligned address inside a fresh pool region, with the region's address in the eight bytes below it |
| Allocator.Session.AllocWholePages | uefi/src/allocator.rs:121-128 | whole pages at a page boundary, exactly when the firmware provides them |
| Allocator.Session.AllocFromPool | uefi/src/allocator.rs:129-137 | an aligned block inside a fresh pool region, exactly when the firmware grants one at a non-zero address |
| Allocator.Session.AllocRaw | uefi/src/allocator.rs:110-139 | a block that fits its layout in one fresh region exactly when the firmware provides the memory, null otherwise; where it lies follows from the answer: whole pages, the start of a pool allocation, or behind at least eight bytes of a larger one |
| Allocator.Session.Alloc | uefi/src/allocator.rs:110-139 | the new block is distinct from all live ones, memory of the others is untouched, and a region is lost exactly when the firmware grants address zero |
| Allocator.Session.DeallocRaw | uefi/src/allocator.rs:144-170 | with the alignment of the allocation, exactly the firmware allocation that the block was made from is released; a panic happens exactly when boot services are gone or the size of whole pages is wrong |
| Allocator.Session.Dealloc | uefi/src/allocator.rs:144-170 | the block is gone, its region is released, all other blocks keep their memory and hidden words |
| Allocator.Session.Write | uefi/src/allocator.rs:65-76 | a write within a block leaves every hidden back pointer intact |
| Allocator.Session.BlocksDisjoint | uefi/src/allocator.rs:93-97 | live blocks are aligned, lie in distinct live regions and do not overlap |
| Allocator.Session.AtMostOneLeak | uefi/src/boot.rs:237-241 | at most one region is ever lost |
| Allocator.ConformingFirmwareMayLeak | uefi/src/boot.rs:241-241 | a conforming firmware with which an allocation is lost |
| Allocator.Session.Elsewhere | uefi/src/allocator.rs:103-171 | allocations, frees and writes of the rest of the machine take effect as they are and keep the invariant and the memory of all blocks |
| Allocator.Session.Run | uefi/src/allocator.rs:103-171 | along every run of allocations, deallocations, writes to own blocks and activity elsewhere the invariant holds; an allocation fails exactly when the firmware does not provide the memory at that moment, every event changes the ledger by its own region only, the live blocks are those allocated and not freed, every byte of theirs is the one last written there, and when all are freed nothing is left but the region lost at zero |
| Boxed.AllocateAndFetch | uefi/src/mem/util.rs:71-114 | one new block in one new region holding the fetched bytes; or, with the reason, blocks and ledger as before, but for a region lost exactly when the firmware grants address zero; the memory of all other blocks stays |
| Boxed.MakeBoxed | uefi/src/mem/util.rs:39-115 | every outcome of the two calls: any other failure of the first is passed on and its success is Unsupported; on every error and panic blocks, lost regions and ledger are as before, but for one region lost exactly when the firmware grants address zero; a box is one new block of the required size padded to the alignment; the memory of all other blocks stays; the allocator is asked for no bytes exactly when the first call asks for none |
| Boxed.DropMatchesAllocationIff | uefi/src/mem/util.rs:112-112 | the layout used to drop a box is the allocated one exactly when both calls agree on the padded length |
| Boxed.ShorterPagesAreNotReleased | uefi/src/mem/util.rs:112-112 | on any heap, a fetch that asks for a byte more than a page and then fills a page makes a page-aligned box whose drop panics and whose block and region stay |
| Boxed.Drop | uefi/src/allocator.rs:144-170 | dropping a box with the layout of its own length releases its region exactly when it is not empty and, if aligned to pages, has the padded length it was made for; otherwise nothing changes |
| Boxed.BoxAndDrop | uefi/src/mem/util.rs:39-115 | boxing and dropping leaves blocks and ledger as they were exactly when the drop releases the region, and otherwise one more block, but for a region lost exactly when the firmware grants address zero; the memory of all other blocks stays |
| Boxed.SameDataIsReleased | uefi/src/mem/util.rs:112-112 | when both calls see the same data the drop releases the region |
| Boxed.GetVariableBoxed | uefi/src/runtime.rs:138-198 | over an unchanged store exactly the stored bytes and the attributes that came with them, in one new block; NotFound for a missing key, Unsupported for a variable without data and OutOfResources exactly when the memory is not obtainable, with the heap as for `MakeBoxed` |
| ExitBoot.GetMemoryMap | uefi/src/boot.rs:352-381 | the current map and its key, or why not; a panic without a firmware call exactly when the buffer is not aligned like a descriptor |
| ExitBoot.GetMapAndExit | uefi/src/boot.rs:1279-1293 | success means that the machine left with the key just fetched and that the buffer still describes the current map; which result an attempt has is told by the faults, the changes of the map and the length of the buffer; a panic happens exactly for a misaligned buffer |
| ExitBoot.Prepare | uefi/src/mem/memory_map/impl_.rs:281-328 | the buffer has the size of the map at the query plus eight descriptors, or there is none exactly when a call fails or the pool is at address zero |
| ExitBoot.TryTwice | uefi/src/boot.rs:1365-1384 | one or two attempts, each one fetch and at most one exit with the fetched key, and each with the result that the environment makes of it; two failures reset the machine with the second status |
| ExitBoot.ExitBootServices | uefi/src/boot.rs:1357-1385 | if it returns, boot services were exited with the current key and the buffer and metadata are the map of that key; the first attempt succeeds exactly when its calls do not fail, the map does not change between them and has not outgrown its size at the query by more than eight descriptors, so an undisturbed machine leaves at once; it panics exactly when the size query or the allocation of the buffer fails or the pool is at address zero; otherwise both attempts failed and the machine was reset with the last status; after the first exit call the only boot services called are GetMemoryMap and ExitBootServices, and no UEFI console is written |
| VariableKeys.GetNextVariableKey | uefi/src/runtime.rs:226-246 | the next key in firmware order, or the error with the required size in characters |
| VariableKeys.VariableKeys.PlaceInStore | uefi/src/runtime.rs:266-270 | the buffer and vendor always identify the variable yielded last |
| VariableKeys.VariableKeys.Grow | uefi/src/runtime.rs:304-309 | growing the buffer keeps the previous name |
| VariableKeys.ReadName | uefi/src/runtime.rs:312-321 | the buffer is read as the firmware's name exactly when that is valid UCS-2 |
| VariableKeys.VariableKeys.Next | uefi/src/runtime.rs:295-336 | the item for the next variable, also after a retry with a larger buffer; a failure of the first call or of the retry is yielded and ends the iteration |
| VariableKeys.Iterate | uefi/src/runtime.rs:291-337 | over firmware that may fail at any call, any number of calls yields one item per variable in firmware order, for names of any length, and nothing ever after; a failure is yielded once, in the place of the next item |
| Ucs2.Char16TryFrom | uefi/src/data_types/chars.rs:116-128 | exactly the surrogates are rejected |
| Ucs2.FromU16UntilNul | uefi/src/data_types/strs.rs:373-382 | the string up to the first null, or the first invalid character before it, or that there is no null |
| Ucs2.FromU16WithNul | uefi/src/data_types/strs.rs:386-403 | the first null or invalid character decides the result |
| Ucs2.WithNulAcceptsExactlyCStr16 | uefi/src/data_types/strs.rs:384-386 | accepted exactly when valid UCS-2 with one null, at the end |
| Ucs2.FromChar16WithNul | uefi/src/data_types/strs.rs:434-452 | the same check on characters that are already valid |
| Ucs2.PairDecodes | uefi/src/data_types/owned_strs.rs:130-137 | the two units of a character outside the BMP are a high and a low surrogate that spell it, as section 2.1 of RFC 2781 has it |
| Ucs2.OffendingUnit | uefi/src/data_types/owned_strs.rs:130-137 | the first bad UTF-16 unit comes from the first character that is null or outside the BMP, at the same index |
| Ucs2.TryFromStr | uefi/src/data_types/owned_strs.rs:121-147 | succeeds exactly when every character is a non-null BMP character, with that text; otherwise reports the kind of the first bad one |
| Ucs2.StrRoundTrip | uefi/src/data_types/strs.rs:647-658 | converting to UCS-2 and back is the identity, in both directions |
| Ucs2.FromStrWithBuf | uefi/src/data_types/strs.rs:485-512 | too small exactly when the units plus a null do not fit, otherwise the result of the direct conversion with the index of the bad character |
| Ucs2.CString16.Push | uefi/src/data_types/owned_strs.rs:69-77 | the character is appended before the null; a null panics without a change |
| Ucs2.CString16.PushStr | uefi/src/data_types/owned_strs.rs:81-86 | the text of the argument is appended |
| Ucs2.CString16.ReplaceChar | uefi/src/data_types/owned_strs.rs:89-100 | every position that held the searched character holds the new one, every other one and the null stay, and the searched character no longer occurs unless the two are equal; a null operand panics without a change |
| Ucs2.CString16.Run | uefi/src/data_types/owned_strs.rs:57-113 | after any run of operations the text is that of the same operations on a plain sequence and the null check accepts |
| Latin1.EncodingDecodes | uefi/src/data_types/strs.rs:250-260 | the UTF-8 bytes of a character decode to it, in the length that section 3 of RFC 3629 gives |
| Latin1.DecodeAtBoundary | uefi/src/data_types/strs.rs:261-278 | at a character boundary the decoder yields that character and the next boundary, and panics exactly when it is not Latin-1 |
| Latin1.StrNumLatin1Chars | uefi/src/data_types/strs.rs:286-301 | the number of characters, or a panic exactly when one is not Latin-1 |
| Latin1.StrToLatin1 | uefi/src/data_types/strs.rs:309-336 | completes exactly when all characters are in 1..=0xFF and the array has one more slot than characters; the output is the characters and a null |
| Unaligned.CopyTo | uefi/src/data_types/unaligned_slice.rs:88-123 | every slot gets its element, or a panic exactly when the lengths differ |
| Unaligned.ToVec | uefi/src/data_types/unaligned_slice.rs:128-136 | the elements, exactly when the vector's capacity is the length |
| Unaligned.UnalignedSlice.ElementBytes | uefi/src/data_types/unaligned_slice.rs:62-68 | an element is the word whose little-endian bytes lie at its place |
| Unaligned.ReadU16Slice | uefi/src/data_types/unaligned_slice.rs:62-68 | the bytes of a u16 slice read back as that slice at any address |
| Logging.LinesAreTheChunk | uefi/src/helpers/logger.rs:224-254 | the lines of a chunk joined again, with the final line feed, are the chunk without the carriage returns before line feeds |
| Logging.DropCrIsIdentityIff | uefi/src/helpers/logger.rs:224-225 | a chunk is passed on unchanged exactly when no carriage return precedes a line feed in it |
| Logging.CrLfLosesItsCr | uefi/src/helpers/logger.rs:224-225 | the shortest chunk that is changed |
| Logging.DecoratedLog.WriteStr | uefi/src/helpers/logger.rs:223-256 | the output is the started lines with their prefixes, and with the prefixes erased it has grown by the chunk |
| Logging.WriteMessage | uefi/src/helpers/logger.rs:204-219 | a message of any chunks comes out as complete prefixed lines that spell the message and a line feed |
| Logging.MessageErased | uefi/src/helpers/logger.rs:202-257 | for any sequence of chunks, the output with the prefixes erased is the chunks joined |
| Logging.TextSurvivesIff | uefi/src/helpers/logger.rs:202-257 | that text is the original exactly when no chunk holds a carriage return followed by a line feed |
| Logging.OutputLines | uefi/src/helpers/logger.rs:183-193 | the lines of the output are exactly the started lines, each with one prefix |
| Logging.LineStartIffNewline | uefi/src/helpers/logger.rs:194-200 | `at_line_start` holds exactly when the output is empty or ends with a line feed |
| Logging.PrefixTells | uefi/src/helpers/logger.rs:231-247 | two records have the same prefix exactly when level, line number and padded file name agree, and the same short prefix exactly when the levels agree |
| Logging.LineReadsBack | uefi/src/helpers/logger.rs:231-235 | the line number in a prefix reads back as the number |
| Logging.Logger.Log | uefi/src/helpers/logger.rs:142-172 | the prefixed message reaches the connected console and the debug console, each if it is there; no UEFI console is touched when the logger is disabled |
| Logging.Logger.Disable | uefi/src/helpers/logger.rs:130-132 | the logger is disconnected |
| MemoryMapSort.Partition | uefi/src/mem/memory_map/impl_.rs:171-196 | the entries are split around the pivot value, all indices stay in bounds, and the rest of the map is untouched |
| MemoryMapSort.QSort | uefi/src/mem/memory_map/impl_.rs:161-169 | the range is sorted and permuted, everything else stays |
| MemoryMapSort.Sort | uefi/src/mem/memory_map/impl_.rs:148-151 | the map is a sorted permutation of itself; a panic exactly when it is empty |
| MemoryMapSort.IsSorted | uefi/src/mem/memory_map/api.rs:80-91 | comparing neighbours decides whether all entries are in order |

## Left out

- `syn` and `quote` token handling, attribute parsing and the `Debug` output of the generator: the model starts from the field list and gives the emitted code a meaning.
- A vector that cannot grow: the `Vec` storage of `DevicePathBuilder` always gets the capacity it reserves.
- Which accessors are emitted: `no_get_func` and `custom_get_impl` replace an accessor, and the model speaks of the packed field itself.
- `get_memory_type` and its cached static: the memory type of an allocation plays no part in the properties.
- Partial frees: the UEFI Specification lets `FreePages` release part of a region; the model refuses any request that does not name a live region, and the allocator never makes one.
- 32-bit targets: addresses and pointers are 64 bits wide.
- Unwinding: a panic is an outcome of the call, with the state it leaves behind.
- Failing writers: the console of the log writer and the debug console accept all text. File names in log records have no line feed.
- The layout of memory descriptors: a descriptor is its physical address and its remaining bytes, and a swap exchanges two descriptors.
- Reading a device path node whose length field is below four: the conversion from bytes reports the panic of the checked subtraction; without overflow checks the subtraction wraps.
- The iterators of `UnalignedSlice` and `CStr16`, `eq_str_until_nul`, `CStr8`, comparisons, `Display` and `Debug`: they would only add easy members.
- The other protocol wrappers, file system, network code, thin boot and runtime service wrappers, and all build tooling.
