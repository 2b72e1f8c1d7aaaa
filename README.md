# DSEngine strings and textures in Dafny

This project models two self-contained parts of the DSEngine game engine and
proves what they promise.

- **`DSString`** (`engine/src/DSString.h`, `engine/src/DSString.cpp`): an owned,
  growable, NUL-terminated character buffer. The class `DSStrings.DSString` has the
  three fields of the C++ class. `data` is a nullable `array<char>` with one slot
  more than `capacity`, and `length` counts the characters. `Valid()` is the
  representation invariant:
  - no buffer goes with length and capacity 0;
  - otherwise the terminator sits at index `length`, with none before it.

  Every operation is a method or function over those fields. It is specified
  against the abstract text `CStr()`, the model of `c_str()`. The C library
  calls the class relies on live in `CLib`, read in the "C" locale: `strlen`,
  `strstr`, `isspace`, `toupper` and `tolower`. `CLib` also holds `Trimmed`, the
  specification of `Trim`.
- **`DSTexture`** (`engine/src/DSTexture.h`, `engine/src/DSTexture.cpp`): a base
  image plus its mip chain, and the writer of the "DST" container file.
  - `Textures.DSTexture` is a class with the source's fields; the mip chain is a
    `seq<seq<Byte>>`.
  - `CreateFromFile` takes the decoder's result as a parameter.
  - `GenerateMipmaps` runs the halving loop; `Mips` holds its arithmetic: steps,
    the log2 count, the shift form of the dimensions, and bounds.
  - `SaveToFile` returns the bytes it would write. `DstFormat` defines those bytes
    as `DstFile`: a 32-byte header, one 16-byte entry per level, then the level
    bytes. `ParseDst` reads a file back and exists only to state the round trip.

Fixed-width integers are explicit:
- `U32` is `0 .. 2^32 - 1`, and `Wrap32` is the conversion to `uint32_t`.
- `Byte` is `0 .. 255`, declared as a subset of `int`.
- `IntMax` is the `INT_MAX` of a 32-bit `int`.

Files: `options.dfy`, `clib.dfy`, `dsstring.dfy`, `dst_format.dfy`, `mips.dfy`,
`dstexture.dfy`.

Two facts about the code that the model follows:
- The header is the 4-byte magic followed by seven `uint32_t` fields: version,
  width, height, channels, mip_levels, flags, data_offset.
- `GenerateMipmaps` appends `floor(log2(max(W, H)))` levels
  (`Mips.MipStepsIsLog2`); a 3 x 3 base ends with 2 levels.

## Model

| member | source | states |
|---|---|---|
| CLib.StrLen | engine/src/DSString.cpp:99 | strlen: the index of the first terminator at or after the start, with no terminator before it |
| CLib.FindFrom | engine/src/DSString.cpp:156 | strstr: the first index at which the pattern occurs, with no earlier occurrence, or -1 exactly when it occurs nowhere |
| CLib.IsSpace | engine/src/DSString.cpp:189 | isspace in the "C" locale: space, tab, newline, vertical tab, form feed and carriage return; white space is never a terminator or a letter |
| CLib.ToUpperChar | engine/src/DSString.cpp:168 | toupper changes only lower-case letters, leaves none, keeps letters letters and never makes or removes a terminator |
| CLib.ToLowerChar | engine/src/DSString.cpp:177 | tolower changes only upper-case letters, leaves none, keeps letters letters and never makes or removes a terminator |
| CLib.MapUpper | engine/src/DSString.cpp:167-169 | toupper applied to each character: same length, and no lower-case letter is left |
| CLib.MapLower | engine/src/DSString.cpp:176-178 | tolower applied to each character: same length, and no upper-case letter is left |
| CLib.MapUpperProperties | engine/src/DSString.cpp:164-171 | upper-casing a string keeps its length, changes only lower-case letters, leaves none behind and is idempotent |
| CLib.MapLowerProperties | engine/src/DSString.cpp:173-180 | lower-casing a string keeps its length, changes only upper-case letters, leaves none behind and is idempotent |
| CLib.LeadingSpaces | engine/src/DSString.cpp:188-191 | the length of the maximal white-space prefix: all of it is white space and the next character is not |
| CLib.TrailingSpaces | engine/src/DSString.cpp:193-196 | the length of the maximal white-space suffix: all of it is white space and the character before is not |
| CLib.Trimmed | engine/src/DSString.cpp:182-208 | the text Trim leaves: no longer than the original, and neither starting nor ending with white space |
| CLib.TrimmedCharacterised | engine/src/DSString.cpp:182-208 | any split of a string into white space, a part that is empty or starts and ends with a non-space, and white space has Trimmed as its middle part |
| CLib.TrimmedShape | engine/src/DSString.cpp:182-208 | Trimmed is the string with a maximal white-space prefix and suffix removed, and has no white space at either end |
| CLib.TrimmedEmptyIffAllSpace | engine/src/DSString.cpp:198-205 | trimming leaves nothing exactly when the string is all white space |
| CLib.TrimmedNoNul | engine/src/DSString.cpp:203 | trimming a C string yields a C string |
| CLib.TrimIdempotent | engine/src/DSString.cpp:182-208 | trimming twice is trimming once |
| DSStrings.DSString.CStr | engine/src/DSString.h:56 | c_str() is never null: the text has `length` characters and no terminator, and is "" when there is no buffer |
| DSStrings.DSString.CStrIsCString | engine/src/DSString.h:56 | strlen of the buffer is the length, so the text a reader of c_str() sees is CStr() |
| DSStrings.DSString.Elements | engine/src/DSString.h:59-62 | [begin(), end()) spans exactly Length() characters, which are the text |
| DSStrings.DSString.AsCharPtr | engine/src/DSString.cpp:110 | m_data passed on as a `const char*` is null exactly when there is no buffer, and otherwise points to the text |
| DSStrings.DSString.Length | engine/src/DSString.cpp:142-144 | Length() is the number of characters of the text |
| DSStrings.DSString.Reallocate | engine/src/DSString.cpp:6-16 | never shrinks: a no-op when the new capacity is not larger, otherwise a fresh buffer of newCapacity + 1 slots that keeps text and terminator when there was a buffer |
| DSStrings.DSString.CopyFrom | engine/src/DSString.cpp:19-30 | the text becomes the first n characters of the source; n = 0 keeps the buffer and empties it; capacity grows only when needed |
| DSStrings.DSString.constructor | engine/src/DSString.cpp:33-36 | starts from null, 0, 0 and ends with a fresh 15-slot buffer holding "" |
| DSStrings.DSString.FromCStr | engine/src/DSString.cpp:38-46 | the text of the argument; a null argument gives the 15-slot default, "" gives no buffer at all |
| DSStrings.DSString.Copy | engine/src/DSString.cpp:48-50 | the same text in a buffer of its own sized to the text; an empty source gives no buffer |
| DSStrings.DSString.Move | engine/src/DSString.cpp:52-57 | takes over buffer, length and capacity; the source is left with no buffer, length 0 and capacity 0 |
| DSStrings.DSString.AssignCStr | engine/src/DSString.cpp:64-72 | the text becomes that of the argument, "" for null; returns the receiver |
| DSStrings.DSString.Assign | engine/src/DSString.cpp:74-79 | the text becomes that of `other`, which is unchanged; self-assignment changes nothing |
| DSStrings.DSString.MoveAssign | engine/src/DSString.cpp:81-93 | takes over the other string's fields and empties it; self-move changes nothing |
| DSStrings.DSString.Append | engine/src/DSString.cpp:96-107 | the text becomes old text + argument text; a null or empty argument changes nothing; capacity grows to exactly the new length only when needed |
| DSStrings.DSString.AppendString | engine/src/DSString.cpp:109-111 | appends the other string's text, leaving the other string unchanged |
| DSStrings.DSString.Concat | engine/src/DSString.cpp:113-117 | a fresh string holding this text + the argument's text; the receiver is unchanged |
| DSStrings.DSString.ConcatString | engine/src/DSString.cpp:119-121 | a fresh string holding this text + the other's text |
| DSStrings.DSString.EqualsAsWritten | engine/src/DSString.cpp:124-127 | the comparison as written: faults exactly when the argument is non-null and the receiver has no buffer, otherwise true iff the texts are equal |
| DSStrings.DSString.Equals | engine/src/DSString.cpp:124-127 | operator== compared through c_str(): true iff the texts are equal; a null argument equals exactly the empty string |
| DSStrings.DSString.EqualsString | engine/src/DSString.cpp:129-131 | true iff the two texts are equal; built on the corrected comparison `Equals`, since the source forwards to operator==(const char*) and faults in the same way |
| DSStrings.DSString.NotEquals | engine/src/DSString.cpp:133-135 | true iff the texts differ, the exact negation of the corrected operator== (`Equals`) |
| DSStrings.DSString.NotEqualsString | engine/src/DSString.cpp:137-139 | true iff the two texts differ, the negation of the corrected comparison |
| DSStrings.DSString.CharacterAtPos | engine/src/DSString.cpp:146-151 | the character at pos when pos < Length(), out_of_range otherwise; reads only |
| DSStrings.DSString.Pos | engine/src/DSString.cpp:153-161 | -1 for a null pattern or no buffer; otherwise the index of the first occurrence, with none before it, or -1 exactly when there is none |
| DSStrings.DSString.ToUpper | engine/src/DSString.cpp:164-171 | in place, the text becomes its character-wise toupper; same buffer; returns the receiver |
| DSStrings.DSString.ToLower | engine/src/DSString.cpp:173-180 | in place, the text becomes its character-wise tolower; same buffer; returns the receiver |
| DSStrings.DSString.Trim | engine/src/DSString.cpp:182-208 | in place, the text becomes Trimmed(old text), keeping buffer and capacity; returns the receiver |
| DSStrings.TrimBounds | engine/src/DSString.cpp:185-196 | the two scans stop at bounds start and end with start <= end + 1 <= length, and the characters between them are Trimmed(text) |
| DSStrings.MoveToFront | engine/src/DSString.cpp:199-203 | memmove then terminator: the n characters at start end up at the front, followed by a terminator |
| DSStrings.EmptyStringComparisonFaults | engine/src/DSString.cpp:124-127 | on a string without a buffer, comparing with "" faults as written and is true as intended |
| DSStrings.EqualsAsWrittenAgrees | engine/src/DSString.cpp:124-127 | wherever the comparison as written does not fault it agrees with Equals |
| DSStrings.PosOfEmpty | engine/src/DSString.cpp:153-161 | Pos of "" is 0 on a string with a buffer and -1 on one without |
| DstFormat.Wrap32 | engine/src/DSTexture.cpp:59 | the conversion to uint32_t is the identity below 2^32 |
| DstFormat.Wrap32Add | engine/src/DSTexture.cpp:75 | adding to a uint32_t and wrapping equals wrapping the exact sum |
| DstFormat.Wrap32AddBoth | engine/src/DSTexture.cpp:75 | the uint32_t sum of two wrapped values is the wrapped exact sum |
| DstFormat.EncodeU32 | engine/src/DSTexture.cpp:63 | a uint32_t field occupies 4 bytes |
| DstFormat.DecodeEncodeU32 | engine/src/DSTexture.cpp:74 | a little-endian uint32_t field reads back as written |
| DstFormat.EncodeHeader | engine/src/DSTexture.h:7-16 | the header occupies sizeof(DSTHeader) = 32 bytes |
| DstFormat.HeaderRoundTrip | engine/src/DSTexture.h:7-16 | magic then version, width, height, channels, mip_levels, flags and data_offset, each at its offset, read back as written |
| DstFormat.EncodeMipInfo | engine/src/DSTexture.h:19-24 | a table entry occupies sizeof(DSTMipInfo) = 16 bytes |
| DstFormat.MipInfoRoundTrip | engine/src/DSTexture.h:19-24 | width, height, size and offset, each at its offset, read back as written |
| DstFormat.TableEntryAt | engine/src/DSTexture.cpp:66-76 | the table of n entries is 16 n bytes and entry i is at bytes [16 i, 16 i + 16) |
| DstFormat.TableLength | engine/src/DSTexture.cpp:66-76 | the table of n entries is 16 n bytes |
| DstFormat.ConcatLength | engine/src/DSTexture.cpp:79-81 | the data region is as long as the levels together |
| DstFormat.ConcatAt | engine/src/DSTexture.cpp:79-81 | level i lies in the data region at the sum of the sizes before it |
| DstFormat.SumLengthsStep | engine/src/DSTexture.cpp:75 | the sizes before level i + 1 are those before level i plus level i's |
| DstFormat.EncodeTableSnoc | engine/src/DSTexture.cpp:74 | writing entry i after the first i entries gives the first i + 1 |
| DstFormat.ConcatSnoc | engine/src/DSTexture.cpp:80 | writing level j after the first j levels gives the first j + 1 |
| DstFormat.OffsetStep | engine/src/DSTexture.cpp:75 | the running offset after level i is the uint32_t sum of the sizes of levels 0..i |
| DstFormat.Shr | engine/src/DSTexture.cpp:69-70 | x >> i never exceeds x |
| DstFormat.MaxOne | engine/src/DSTexture.cpp:69-70 | std::max(1u, x): at least 1 and at least x, and one of the two |
| DstFormat.SavedHeader | engine/src/DSTexture.cpp:55-60 | the header SaveToFile fills in: 4-byte magic, version 1, the base dimensions, channels and flags, mip_levels the level count as a uint32_t, data_offset 32 + 16 mip_levels as a uint32_t |
| DstFormat.MipEntry | engine/src/DSTexture.cpp:68-72 | entry i: dimensions between 1 and the base's, size level i's byte count and offset the bytes before it, where these fit a uint32_t |
| DstFormat.MipTable | engine/src/DSTexture.cpp:66-76 | one entry per level; the first has offset 0 and the base dimensions |
| DstFormat.DstFile | engine/src/DSTexture.cpp:62-81 | the saved bytes begin with the encoded header and end, after the 16-byte entries, with the level bytes |
| DstFormat.SavedHeaderFields | engine/src/DSTexture.cpp:55-60 | the saved header has magic "DST\0", version 1, the base dimensions and channels, mip_levels = number of levels and data_offset = 32 + 16 mip_levels |
| DstFormat.DstFileLength | engine/src/DSTexture.cpp:62-81 | the file is 32 + 16 n + the sum of the level sizes bytes long |
| DstFormat.MipTableOffsets | engine/src/DSTexture.cpp:66-76 | entry i's size is level i's byte count and its offset the sum of the sizes before it: 0 first, then each where the previous ends |
| DstFormat.SavedPrefixLength | engine/src/DSTexture.cpp:60 | header and table take exactly data_offset bytes |
| DstFormat.EntryLocatesLevel | engine/src/DSTexture.h:23 | entry i's offset and size locate level i within the data region |
| DstFormat.LevelAtTableOffset | engine/src/DSTexture.h:23 | level i is found at data_offset + offset in the file, so the offset is relative to data_offset |
| DstFormat.DecodeTableRoundTrip | engine/src/DSTexture.cpp:65-76 | the written table decodes back to the entries |
| DstFormat.HeaderPrefixReads | engine/src/DSTexture.cpp:63 | the first 32 bytes of a header followed by anything read back as that header |
| DstFormat.SavedHeaderReads | engine/src/DSTexture.cpp:62-63 | the first 32 bytes of a saved file read back as the header written |
| DstFormat.SavedTableReads | engine/src/DSTexture.cpp:65-76 | the mip_levels entries after the header read back as the table written |
| DstFormat.ReadLevelsLocated | engine/src/DSTexture.cpp:78-81 | the levels the table locates are read back exactly when each entry locates its level |
| DstFormat.SavedLevelsRead | engine/src/DSTexture.cpp:78-81 | every level the saved table locates lies in the file and is the level written |
| DstFormat.SaveParseRoundTrip | engine/src/DSTexture.cpp:51-84 | reading a saved file back gives the header, the table and every level's bytes that were written |
| Mips.HalveBounds | engine/src/DSTexture.cpp:37-38 | a step gives at least 1, halves anything of 2 or more and never grows a positive dimension |
| Mips.HalveNShift | engine/src/DSTexture.cpp:36-38 | k steps and then one more are one step and then k more |
| Mips.HalveNBounds | engine/src/DSTexture.cpp:36-38 | after any number of steps a positive dimension stays between 1 and its start |
| Mips.HalveNIsShift | engine/src/DSTexture.cpp:69-70 | the dimension after k halving steps is max(1, d >> k), the table entry's width or height |
| Mips.HalveMax | engine/src/DSTexture.cpp:37-38 | the step on the larger dimension is the larger step |
| Mips.Halve | engine/src/DSTexture.cpp:37-38 | std::max(1, d / 2): at least 1, and for d >= 2 the floor of half of d |
| Mips.MipSteps | engine/src/DSTexture.cpp:36-38 | the number of loop iterations, 0 exactly when both dimensions are at most 1 |
| Mips.StepSizes | engine/src/DSTexture.cpp:36-45 | one byte count per loop iteration |
| Mips.MipStepsIsLog2 | engine/src/DSTexture.cpp:36-38 | the loop runs floor(log2(max(W, H))) times, 0 for a 1 x 1 base |
| Mips.MipStepsReachUnit | engine/src/DSTexture.cpp:36 | after the last step both dimensions are at most 1, and exactly 1 when a step was taken |
| Mips.MipStepsBeforeUnit | engine/src/DSTexture.cpp:36 | before the last step at least one dimension is above 1, so the loop does not stop early |
| Mips.MipStepsBound | engine/src/DSTexture.cpp:33-38 | a base of at most INT_MAX per dimension takes at most 30 steps |
| Mips.StepSizesAreLevels | engine/src/DSTexture.cpp:36-46 | one appended size per step, the k-th being the byte count of the dimensions after k + 1 steps |
| Mips.LevelBytesBound | engine/src/DSTexture.cpp:40 | no level of a chain is larger than its base, nor smaller than one pixel |
| Textures.DSTexture.CreateFromFile | engine/src/DSTexture.cpp:10-27 | null exactly when the decoder fails; otherwise a fresh texture with the decoder's width, height and channels and its w * h * c pixels as the only level |
| Textures.DecodedImage.Valid | engine/src/DSTexture.cpp:11-13 | what stbi_load returns on success: positive dimensions, 1 to 4 channels and a buffer of w * h * c bytes, which is non-empty and fits an int |
| Textures.DSTexture.GetWidth | engine/src/DSTexture.h:43 | the stored width, reading only |
| Textures.DSTexture.GetHeight | engine/src/DSTexture.h:44 | the stored height, reading only |
| Textures.DSTexture.GetChannels | engine/src/DSTexture.h:45 | the stored channel count, reading only |
| Textures.DSTexture.GenerateMipmaps | engine/src/DSTexture.cpp:29-49 | false and nothing changed on an empty chain; otherwise true, the existing levels kept as a prefix and one level appended per step, with the byte counts StepSizes(W, H, channels) |
| Textures.DSTexture.SaveToFile | engine/src/DSTexture.cpp:51-84 | false and nothing written when the file cannot be opened; otherwise true and exactly the bytes DstFile: header, table, levels |
| Textures.WriteMipTable | engine/src/DSTexture.cpp:65-76 | the table loop with its running uint32_t offset writes exactly the encoded MipTable |
| Textures.WriteLevels | engine/src/DSTexture.cpp:78-81 | the data loop writes the levels' bytes one after the other |
| Textures.TableStep | engine/src/DSTexture.cpp:68-74 | the entry built from the running offset is entry i of MipTable |
| Textures.GeneratedChain | engine/src/DSTexture.cpp:29-49 | from a single base level, GenerateMipmaps' result has 1 + MipSteps levels, level k holding the bytes of the dimensions after k steps |
| Textures.ChainTable | engine/src/DSTexture.cpp:66-76 | for such a chain: at most 31 levels, and entry k's width and height are those after k steps and its size is level k's byte count |
| Textures.ChainEntry | engine/src/DSTexture.cpp:69-71 | entry k of a chain's table has the dimensions after k steps and the level's byte count |
| Textures.ChainEndsAtOnePixel | engine/src/DSTexture.cpp:36-46 | a chain ends in a 1 x 1 level of `channels` bytes, and every earlier level is larger than 1 x 1 |

## Left out

- `DSString::Format` (engine/src/DSString.cpp:212-295): C varargs and `vsnprintf`/`vsprintf` are foreign calls whose output cannot be modelled.
- The destructors and every `delete[]`: freeing memory is not modelled, and a replaced buffer is simply no longer referenced.
- Allocation failure (`std::bad_alloc` from `new char[]` or `std::vector`) is not modelled.
- `size_t` overflow of `m_length + len` in `operator+=` and of `newCapacity + 1` is not modelled; lengths are unbounded naturals.
- DSStrings.DSString.AppendString: requires `other != this`. In the source `s += s` passes its own buffer to `operator+=(const char*)`, and this is undefined behaviour in both cases. When the buffer grows, `reallocate` frees it before the `memcpy` reads it. When it does not grow, `memcpy(m_data + m_length, m_data, len + 1)` copies between overlapping ranges (both hold index `m_length`).
- DSStrings.DSString.Append, DSStrings.DSString.AssignCStr: a `const char*` is a value (`CharPtr`), so an argument that points into the receiver's own buffer is not modelled. For `AssignCStr` such an argument (`s = s.c_str() + 1`) makes `copyFrom` call `memcpy` on overlapping ranges.
- DSStrings.DSString.Assign: requires that two distinct strings do not share a buffer. The source keeps this by construction; the model does not track it globally.
- DSStrings.DSString.Pos: the `static_cast<int>` of an index above `INT_MAX` is not modelled; the result is an unbounded int.
- DSStrings.DSString.CharacterAtPos: the thrown `std::out_of_range` is modelled as the value `OutOfRange`.
- `std::isspace`, `std::toupper` and `std::tolower` are modelled for the "C" locale only.
- DSStrings.TrimBounds: the index `end` is an int rather than a `size_t`. The two agree, because the scans never move `end` below `start - 1 >= -1`.
- The decoder `stbi_load` and the flag `stbi_set_flip_vertically_on_load` are not modelled. The decoder's result is the parameter of `CreateFromFile`. Its `Valid()` states what stb guarantees: positive dimensions, 1 to 4 channels, a byte count that fits an int, and a buffer of that many bytes. `stbi_image_free` is not modelled.
- Textures.DSTexture.GenerateMipmaps: the bytes of each new level are left unspecified (any buffer of the right length). The pixel values of `stbir_resize_uint8_srgb` are not modelled.
  - That call passes the base `m_width` x `m_height` as the source size and `STBIR_RGBA` as the layout, whatever `m_channels` is and whichever level `back()` is.
  - The new buffer holds `w * h * m_channels` bytes and `STBIR_RGBA` writes `w * h * 4`, so the write overruns when `m_channels < 4`.
  - The read of `m_width * m_height * 4` bytes from `back()` overruns for every level after the first, and for the base when `m_channels < 4`.
  - Only buffer lengths are modelled, so this overrun is not represented.
- Textures.DSTexture.GenerateMipmaps: the new levels are collected in a local sequence that is assigned to the field at the end. The source calls `push_back` once per step; the final state is the same.
- Textures.DSTexture.GenerateMipmaps: requires the class invariant `Valid()`, which `CreateFromFile` establishes (the constructor is private). Under it `int w = m_width` does not change the value, and `w * h * m_channels` cannot overflow (`Mips.LevelBytesBound`).
- Textures.DSTexture.SaveToFile: the `std::ofstream` is modelled by the parameter `isOpen` for the `!file` check and by the returned bytes. Write errors after opening are not modelled. Fields are written in host byte order, taken as little-endian.
- Textures.DSTexture.SaveToFile: `header.flags` is never assigned in the source; it is the parameter `flags`.
- DstFormat.Shr: `m_width >> i` is modelled as repeated halving. The shift is undefined in C++ for `i >= 32`. A chain built by one `GenerateMipmaps` from a single base level has at most 31 levels (`Textures.ChainTable`), but a second call can make it longer.
- DstFormat.ParseDst: a reader used only to state the round trip. The source has no loader (`LoadFromFile` is declared only).
- `CreateEmpty`, `SetMipLevel`, `LoadFromFile`, `GetPixels`, and the `DSTexture` constructor and destructor are declared in engine/src/DSTexture.h without a definition, so they are not modelled. Textures are allocated with no constructor and their fields assigned, as `CreateFromFile` does.
- `Byte` is a subset type of `int` rather than `bv8`, so that byte arithmetic stays in integer reasoning.
- The round-trip lemmas require `FitsU32`: the header, the table and all level bytes together fit a `uint32_t`. Beyond that the source's offsets and sizes wrap, and the model computes the same wrapped values (`Wrap32`).
- The vector, quaternion and matrix math, the time utilities, logging, and the platform and renderer code are floating point, clock, I/O, concurrency and graphics-API code, outside this model.

## Findings

| source | as written | input that shows it | evidently intended | confidence | as-written member | corrected member |
|---|---|---|---|---|---|---|
| engine/src/DSString.cpp:124-127 | `operator==(const char*)` calls `strcmp(m_data, str)` even when `m_data` is null. `DSString("")`, a copy of an empty string and a moved-from string all have a null `m_data`. | `DSString("") == ""` dereferences a null pointer | compare through `c_str()`, so that the result is true | not executed | DSStrings.DSString.EqualsAsWritten | DSStrings.DSString.Equals |
