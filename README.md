# TilekarOS: i386 GDT/TSS setup and the header-to-NASM converter, in Dafny

This project models three pieces of TilekarOS and proves properties about them.

- **The i386 Global Descriptor Table set-up** (`kernel/arch/i386/gdt.c`).
  - The 8-byte segment descriptor and its `GDT_PACK_*` / `GDT_ENTRY` encoder, with decoders and the in-memory bytes (Intel SDM Vol. 3A, section 3.4.5).
  - The six-slot table `gdt[]`: the null descriptor, four flat 4 GiB segments and the TSS slot.
  - The GDTR payload `gdt_discriptor` (Intel SDM Vol. 3A, section 3.5.1).
  - The packed 32-bit TSS `TSSEntry`, with its offsets, its bytes and the initial `tss_entry` (Intel SDM Vol. 3A, sections 7.2.1-7.2.2).
  - `gdt_install_tss`, a method that writes the TSS slot of the table's array in place.
  - `init_gdt`, a method that records its three effects on a ghost trace. A small stage machine judges the order of those effects against what loading the task register needs.
- **The selector constants** (`kernel/arch/i386/local_config.h`): the slot numbers, the `index * 8 | rpl` selector formula (Intel SDM Vol. 3A, section 3.4.2) and the `*_OFFSET` values.
- **The converter `helpers/h2inc.py`**. It turns every `#define NAME VALUE` line of a C header into a `%define NAME VALUE` line of a NASM include file, and derives the output file name.
  - A hand-written matcher stands in for the regular expression `#define\s+([A-Za-z_][A-Za-z0-9_]*)\s+(.*)`. It is proved sound and complete against an explicit grammar, with greedy pieces.
  - `str.strip`, `posixpath.splitext`, universal-newline reading and `readlines` are written out.
  - The line loop and the writing loop are methods, proved against the functions that specify them.

Modules:
- `Wrappers`: `Option`.
- `Packed`: the byte layout of a packed little-endian C struct, with `offsetof`, flatten and unflatten.
- `Descriptor`: `GDTEntry` and its encoder.
- `LocalConfig`: `local_config.h`.
- `Tss`: `TSSEntry`.
- `Gdt`: the table, GDTR, `gdt_install_tss` and `init_gdt`.
- `H2Inc`: the converter.

C fixed-width integers are bit-vectors (`bv8`, `bv16`, `bv32`), so masks, shifts and truncation are exactly the C ones. Python strings are sequences of code points. Python whitespace is the set of code points that `str.isspace`, `str.strip` and the regular-expression class `\s` share: 9-13, 28-32, 0x85, 0xA0, 0x1680, 0x2000-0x200A, 0x2028, 0x2029, 0x202F, 0x205F and 0x3000.

The model follows `gdt.c` as written:
- `tss_entry.cs` is `GDT_KERNEL_CS_OFFSET | 0x3` = 0x0B, the kernel code selector with RPL 3, as written.
- An oversized limit is silently truncated to 20 bits and never rejected.
- Nothing in `gdt.c` forbids writing the TSS slot before `lgdt`, and that write is only a memory store. So the stage machine accepts an install in any stage before the task register is loaded.
- For `ltr` the machine requires:
  - a GDTR loaded before it;
  - a present, available 32-bit TSS descriptor in the TSS slot when it runs.
- The machine judges one boot as `init_gdt` performs it. This leads to three rules that go beyond what the processor enforces:
  - a second `lgdt` is refused;
  - every event after `ltr` is refused, a descriptor write included;
  - an `lgdt` whose limit does not cover the TSS slot faults at the `lgdt`, where the processor would fault only at `ltr`.

  The "exactly once, last" part of `Gdt.ReplayOrder` rests on the second rule.

## Model

| member | source | states |
|---|---|---|
| Descriptor.Encode | kernel/arch/i386/gdt.c:111-128 | `GDT_ENTRY(base, limit, access, flags)` keeps all 32 base bits, exactly `limit & 0xFFFFF` of the limit, exactly `flags & 0xF0` of the flags, and the access byte verbatim |
| Descriptor.EncodeDecode | kernel/arch/i386/gdt.c:122-128 | every entry is the encoding of its own decoded base, limit, access and flags, so the decoders invert the encoder |
| Descriptor.EncodeIgnoresDroppedBits | kernel/arch/i386/gdt.c:111-115 | limit bits above 19 and the low flag nibble have no effect at all: they are silently truncated, not rejected |
| Descriptor.DecodeBase | kernel/arch/i386/gdt.c:11-16 | the base is reassembled with `base_low` as bits 0-15, `base_middle` as bits 16-23 and `base_high` as bits 24-31 |
| Descriptor.DecodeFlags | kernel/arch/i386/gdt.c:14-15 | the flags are the high nibble of `flags_limit_hi`, in place; the low nibble belongs to the limit |
| Descriptor.DecodeLimit | kernel/arch/i386/gdt.c:10-15 | the limit reassembled from `limit_low` and the low nibble of `flags_limit_hi` is at most 20 bits |
| Descriptor.ByteLimit | kernel/arch/i386/gdt.c:105-107 | the last valid offset is the limit itself with byte granularity; with 4 KiB granularity it is the limit shifted by 12 with the low 12 bits set |
| Descriptor.PageLimit | kernel/arch/i386/gdt.c:107 | a 20-bit page count becomes the byte offset of the last byte of its last page |
| Descriptor.Fields | kernel/arch/i386/gdt.c:9-17 | an entry's members have the layout 16, 16, 8, 8, 8, 8 bits in declaration order |
| Descriptor.FromFields | kernel/arch/i386/gdt.c:9-17 | any member list of that layout comes from exactly one entry |
| Descriptor.EntryOffsets | kernel/arch/i386/gdt.c:9-17 | the members sit at offsets 0, 2, 4, 5, 6 and 7, and `sizeof(GDTEntry)` is 8 |
| Descriptor.Serialize | kernel/arch/i386/gdt.c:9-17 | an entry occupies 8 bytes |
| Descriptor.EntryMembersAt | kernel/arch/i386/gdt.c:9-17 | each member lands at its offset among the packed bytes, little-endian |
| Descriptor.SerializeIsPackedLayout | kernel/arch/i386/gdt.c:9-17 | the 8 bytes are exactly the packed struct's members in declaration order |
| Descriptor.Parse | kernel/arch/i386/gdt.c:9-17 | every 8 bytes are the bytes of some entry |
| Descriptor.ParseSerialize | kernel/arch/i386/gdt.c:9-17 | reading an entry back from its bytes gives the entry |
| Descriptor.NullEntryBytes | kernel/arch/i386/gdt.c:156 | `GDT_ENTRY(0, 0, 0, 0)` is the all-zero entry and eight zero bytes |
| LocalConfig.Selector | kernel/arch/i386/local_config.h:8-12 | `index * 8 \| rpl` for a 13-bit index and a 2-bit RPL gives back that index and RPL, with TI = 0 (GDT) |
| LocalConfig.SelectorInjective | kernel/arch/i386/local_config.h:8-12 | two GDT selectors are equal if and only if their indices and RPLs are equal |
| LocalConfig.WithRpl | kernel/arch/i386/local_config.h:8-12 | OR-ing a ring-0 selector with an RPL gives the selector with that RPL; the unparenthesised `\| 0` tail groups either way |
| LocalConfig.IndicesDistinct | kernel/arch/i386/local_config.h:2-6 | the five slot numbers are pairwise distinct and none is the null slot 0 |
| LocalConfig.OffsetsAreRing0Selectors | kernel/arch/i386/local_config.h:8-12 | the offsets are 0x08, 0x10, 0x18, 0x20 and 0x28, the ring-0 GDT selectors of their slots; the low 3 bits are clear and `>> 3` gives the slot |
| LocalConfig.Ring3Variants | kernel/arch/i386/gdt.c:144-151 | `X_OFFSET \| 3` is the RPL-3 selector of the same slot: 0x0B for kernel code, 0x13 for kernel data, 0x1B and 0x23 for the user slots |
| Tss.Fields | kernel/arch/i386/gdt.c:30-54 | a TSS value has the member layout of `TSSEntry`, reserved halves included, in declaration order |
| Tss.FromRuns | kernel/arch/i386/gdt.c:30-54 | any member lists of the right layouts are the members of some TSS |
| Tss.MembersDetermine | kernel/arch/i386/gdt.c:30-54 | a TSS is determined by its members |
| Tss.FieldsInjective | kernel/arch/i386/gdt.c:30-54 | different TSS values have different member lists |
| Tss.RunSizes | kernel/arch/i386/gdt.c:30-54 | the sizes of the groups of consecutive members, and their inner offsets |
| Tss.TssOffsets | kernel/arch/i386/gdt.c:30-54 | `esp0` is at 4, `ss0` at 8, `cr3` at 28, `iomap_base` at 102, and `sizeof(TSSEntry)` is 104 |
| Tss.Serialize | kernel/arch/i386/gdt.c:30-54 | a TSS occupies 104 bytes |
| Tss.SerializeRuns | kernel/arch/i386/gdt.c:30-54 | the bytes are the members' bytes one after another, with no padding |
| Tss.SerializeInjective | kernel/arch/i386/gdt.c:30-54 | different TSS values have different bytes |
| Tss.Parse | kernel/arch/i386/gdt.c:30-54 | every 104 bytes are the bytes of some TSS |
| Tss.ParseSerialize | kernel/arch/i386/gdt.c:30-54 | reading a TSS back from its bytes gives the TSS |
| Tss.MemberBytes | kernel/arch/i386/gdt.c:30-54 | `esp0`, `ss0`, `cr3` and `iomap_base` sit, little-endian, at the bytes the processor reads them from |
| Tss.InitialTssValues | kernel/arch/i386/gdt.c:138-152 | `ss0` = 0x10 and `esp0` = 0; `cs` = 0x0B; `ds`, `ss`, `es`, `fs` and `gs` = 0x13; every other member, reserved ones included, is zero |
| Gdt.InitialEntry | kernel/arch/i386/gdt.c:154-184 | slot `i` of the static `gdt[]`: slot 0 and the TSS slot are the zero entry, slots 1-4 are flat segments, with DPL 0 for the kernel slots and 3 for the user slots |
| Gdt.InitialTableShape | kernel/arch/i386/gdt.c:154-184 | the table has 6 slots, so the TSS index names one; slot 0 is all zero, in members and bytes; the TSS slot starts zero and not present |
| Gdt.FlatSegments | kernel/arch/i386/gdt.c:158-180 | slots 1-4 have base 0, `limit_low` 0xFFFF, `flags_limit_hi` 0xCF and a byte limit of 0xFFFFFFFF; access bytes 0x9A, 0x92, 0xFA, 0xF2; DPL 0 for kernel, 3 for user; code type 0xA, data type 0x2 |
| Gdt.TssDescriptor | kernel/arch/i386/gdt.c:211-221 | the TSS descriptor has base the TSS address, limit `sizeof(TSSEntry) - 1` = 103 in bytes, access 0xE9 (present, DPL 3, system, type 9) and flags 0 |
| Gdt.TssDescriptorCoversTss | kernel/arch/i386/gdt.c:212-213 | the TSS descriptor's segment is exactly as long as a TSS's bytes |
| Gdt.WithTss | kernel/arch/i386/gdt.c:222 | after the install, the TSS slot holds the TSS descriptor and every other slot is unchanged |
| Gdt.InstallIdempotent | kernel/arch/i386/gdt.c:211-223 | installing twice with the same address gives the same table as installing once |
| Gdt.InstallForgetsTheOldSlot | kernel/arch/i386/gdt.c:222 | the table after the install does not depend on what the TSS slot held before |
| Gdt.TableDescriptor | kernel/arch/i386/gdt.c:186 | `gdt_discriptor` has limit `sizeof(gdt) - 1` = 47 and the table's address |
| Gdt.TableDescriptorCoversTable | kernel/arch/i386/gdt.c:186 | that GDTR covers each of the six slots, and no seventh |
| Gdt.GdtrFields | kernel/arch/i386/gdt.c:63-66 | the GDTR payload is a 16-bit limit followed by a 32-bit address |
| Gdt.GdtrOffsets | kernel/arch/i386/gdt.c:63-66 | the address sits at offset 2, and the packed payload is 6 bytes |
| Gdt.GdtrBytes | kernel/arch/i386/gdt.c:63-66 | the payload `lgdt` reads is 6 bytes |
| Gdt.GdtrLayout | kernel/arch/i386/gdt.c:63-66 | bytes 0-1 are the limit and bytes 2-5 the linear address, both little-endian |
| Gdt.ParseGdtr | kernel/arch/i386/gdt.c:63-66 | every 6 bytes are some GDTR payload's bytes |
| Gdt.ParseGdtrBytes | kernel/arch/i386/gdt.c:63-66 | reading a payload back from its bytes gives the payload |
| Gdt.Step | kernel/arch/i386/gdt.c:228-232 | each event is accepted if and only if its condition holds: a GDTR load when nothing is loaded yet and the GDTR covers the TSS slot; a descriptor write in every stage before `ltr`, leaving the stage as it is; `ltr` when a GDTR is loaded and the slot is loadable |
| Gdt.InitTrace | kernel/arch/i386/gdt.c:228-232 | `init_gdt` issues three events |
| Gdt.InitTraceSucceeds | kernel/arch/i386/gdt.c:228-232 | the trace of `init_gdt` runs without a fault and ends with the task register loaded |
| Gdt.ReplayOrder | kernel/arch/i386/gdt.c:228-232 | any fault-free trace that ends with the task register loaded loads it exactly once, last, from a loadable descriptor, after a GDTR load that covers the TSS slot |
| Gdt.AfterGdtr | kernel/arch/i386/gdt.c:230-231 | from a loaded GDTR, the only way to a loaded task register is descriptor writes and then `ltr` |
| Gdt.TaskLoadedIsFinal | kernel/arch/i386/gdt.c:231 | once the task register is loaded, no further event is accepted |
| Gdt.OrderMatters | kernel/arch/i386/gdt.c:229-231 | without the install, `ltr` reads the zero slot and faults; loading TR before GDTR faults too |
| Gdt.GlobalDescriptorTable.constructor | kernel/arch/i386/gdt.c:154-184 | a fresh six-slot array holding the static initialiser, and an empty trace |
| Gdt.GlobalDescriptorTable.Gdtr | kernel/arch/i386/gdt.c:186 | the table's `gdt_discriptor`: limit 47 and the table's own address |
| Gdt.GlobalDescriptorTable.LoadGdtRegister | kernel/arch/i386/gdt.c:195 | `gdt_load_register` appends one GDTR load to the trace and touches nothing else; the table stays six slots |
| Gdt.GlobalDescriptorTable.InstallTss | kernel/arch/i386/gdt.c:211-223 | `gdt_install_tss` writes the TSS descriptor into slot 5 of the array and changes no other slot |
| Gdt.GlobalDescriptorTable.LoadTaskRegister | kernel/arch/i386/gdt.c:200 | `tss_load_register` appends an `ltr` that reads slot 5, the slot of selector `GDT_TSS_OFFSET`, as it is at that moment |
| Gdt.GlobalDescriptorTable.Init | kernel/arch/i386/gdt.c:228-232 | `init_gdt` appends exactly GDTR load, install and `ltr` from the installed descriptor, in that order; only the TSS slot changes |
| Gdt.Boot | kernel/arch/i386/gdt.c:154-232 | from the static table, the boot leaves a loadable descriptor for the TSS in slot 5 and the other slots as initialised, and its trace runs without a fault |
| Packed.FieldAt | kernel/arch/i386/gdt.c:30 | in a packed struct, member `i`'s bytes sit at `offsetof` member `i` |
| Packed.UnflattenFlatten | kernel/arch/i386/gdt.c:17 | reading the packed bytes back with the struct's layout gives its members |
| Packed.ReadBytes | kernel/arch/i386/gdt.c:9-17 | a member's little-endian bytes read back as its value |
| H2Inc.Strip | helpers/h2inc.py:30 | `line.strip()` has no whitespace at either end |
| H2Inc.StripInfix | helpers/h2inc.py:30 | stripping removes only whitespace, only from the two ends, and returns a contiguous piece of the line |
| H2Inc.StripUnique | helpers/h2inc.py:30 | whatever whitespace surrounds a trimmed text, stripping returns exactly that text |
| H2Inc.StripIdempotent | helpers/h2inc.py:30 | stripping twice is stripping once |
| H2Inc.SplitSpaces | helpers/h2inc.py:22 | `\s*` taken greedily: a whitespace prefix, the rest not starting with whitespace, together the input |
| H2Inc.SplitIdentChars | helpers/h2inc.py:22 | `[A-Za-z0-9_]*` taken greedily: an identifier-character prefix, the rest not starting with one |
| H2Inc.SplitLine | helpers/h2inc.py:22 | `.*` taken greedily: everything up to the first line feed |
| H2Inc.MatchDefine | helpers/h2inc.py:22 | a match happens only on a text starting with `#define`; group 1 is an identifier and group 2 has no line feed |
| H2Inc.ScanSound | helpers/h2inc.py:22 | whenever the matcher succeeds, its five pieces spell the text, obey the pattern's grammar, and are the greedy ones |
| H2Inc.MatchDefineSound | helpers/h2inc.py:35-38 | the name and value of a match are groups 1 and 2 of a greedy reading of the text by the pattern |
| H2Inc.MatchDefineComplete | helpers/h2inc.py:35-38 | every text the pattern can read matches, with that name; with greedy pieces, with that value too |
| H2Inc.NoValueDropped | helpers/h2inc.py:22 | `#define NAME` with no value does not match and gives no output |
| H2Inc.FunctionLikeMacroDropped | helpers/h2inc.py:22 | `#define F(x) ...`, with any whitespace after `#define`, does not match, because `(` follows the name where whitespace is required |
| H2Inc.NonDirectiveDropped | helpers/h2inc.py:35-36 | a line that does not start with `#define` once stripped gives no output |
| H2Inc.IncludeDropped | helpers/h2inc.py:35-36 | an `#include` line gives no output |
| H2Inc.StripParens | helpers/h2inc.py:41-42 | a value not both opened by `(` and closed by `)` is kept as it is; a wrapped value loses at least its two parentheses and comes out with no whitespace at either end (StripParensTrims says which text) |
| H2Inc.StripParensTrims | helpers/h2inc.py:41-42 | a wrapped value loses its parentheses and the whitespace just inside them: `(` + spaces + `u` + spaces + `)` gives the trimmed `u` |
| H2Inc.SpacedParensExample | helpers/h2inc.py:41-42 | `( 1 )` becomes `1` |
| H2Inc.StripParensPeel | helpers/h2inc.py:41-42 | exactly one pair of parentheses comes off a wrapped value whose inside is already trimmed |
| H2Inc.StripParensKeeps | helpers/h2inc.py:41-42 | a value that is not both opened by `(` and closed by `)` passes unchanged |
| H2Inc.OnePairOnly | helpers/h2inc.py:41-42 | `((x))` becomes `(x)`: the unwrapping happens once |
| H2Inc.OffsetMacroKeptWhole | helpers/h2inc.py:41-44 | the header's `(X_INDEX * 8) \| 0` values are kept whole |
| H2Inc.StripParensNoNewline | helpers/h2inc.py:38-42 | stripping and unwrapping never add a line feed |
| H2Inc.IsSkipped | helpers/h2inc.py:32 | the test of line 32; SkippedGiveNothing and DirectiveNotSkipped state what it decides |
| H2Inc.SkippedGiveNothing | helpers/h2inc.py:32-33 | blank lines and lines starting with `//` or `/*` give no output |
| H2Inc.DirectiveNotSkipped | helpers/h2inc.py:32-35 | a line starting with `#define` is never taken for a comment |
| H2Inc.DefineLine | helpers/h2inc.py:30-44 | a line that reads, once stripped, as `#define NAME VALUE` gives exactly `%define NAME VALUE'`, where VALUE' is VALUE stripped and unwrapped |
| H2Inc.TransformStrippedCharacterized | helpers/h2inc.py:32-44 | a stripped line gives output if and only if the pattern matches it; the output starts with `%define NAME ` and has no line feed |
| H2Inc.OutputLineShape | helpers/h2inc.py:44 | `%define NAME VALUE'` starts with `%define NAME ` and has no line feed |
| H2Inc.TransformLine | helpers/h2inc.py:30-44 | one iteration of the loop body; TransformLineCharacterized, DefineLine and the dropped-line lemmas state what it gives |
| H2Inc.TransformLineCharacterized | helpers/h2inc.py:30-44 | a line gives output if and only if the pattern matches it once stripped; that output starts with `%define NAME ` and has no line feed |
| H2Inc.PlainDefine | helpers/h2inc.py:35-44 | `#define NAME VALUE`, with VALUE not wrapped in parentheses, becomes `%define NAME VALUE` |
| H2Inc.SpacedDefine | helpers/h2inc.py:30-44 | a header line `#define NAME VALUE\n` gives `%define NAME VALUE'` |
| H2Inc.WrappedDefine | helpers/h2inc.py:41-44 | `#define NAME (VALUE)` becomes `%define NAME VALUE` |
| H2Inc.Converted | helpers/h2inc.py:29-44 | there are never more output lines than input lines |
| H2Inc.ConvertedAppend | helpers/h2inc.py:29-44 | the conversion is line by line: output lines come in the order of their source lines |
| H2Inc.ConvertedSingle | helpers/h2inc.py:29-44 | one input line gives its own output line, or none |
| H2Inc.ConvertLines | helpers/h2inc.py:27-44 | the `for line in lines` loop builds exactly the converted line list |
| H2Inc.ConvertedNoNewline | helpers/h2inc.py:44 | no output line contains a line feed |
| H2Inc.TranslateNewlines | helpers/h2inc.py:24-25 | text read in universal-newline mode holds no carriage return |
| H2Inc.TranslateNewlinesPrefix | helpers/h2inc.py:24-25 | text without carriage returns passes through unchanged, whatever follows it |
| H2Inc.TranslateCrLf | helpers/h2inc.py:24-25 | a `\r\n` pair becomes one `\n` |
| H2Inc.TranslateLoneCr | helpers/h2inc.py:24-25 | a `\r` not followed by `\n` becomes one `\n` |
| H2Inc.TranslateNewlinesPlain | helpers/h2inc.py:24-25 | text without carriage returns reads unchanged |
| H2Inc.SplitLines | helpers/h2inc.py:25 | `readlines()`; SplitLinesConcat, SplitLinesShape and SplitLinesCons state what it gives |
| H2Inc.SplitLinesConcat | helpers/h2inc.py:25 | `readlines()` loses nothing: the lines put together are the text |
| H2Inc.SplitLinesShape | helpers/h2inc.py:25 | every line is non-empty with a line feed at most at its end, and every line but the last ends with one |
| H2Inc.SplitLinesCons | helpers/h2inc.py:25 | a first line ended by a line feed is read as a line of its own |
| H2Inc.Content | helpers/h2inc.py:46-49 | the text written to the output file; Render and ContentReadBack state what it holds |
| H2Inc.JoinedSnoc | helpers/h2inc.py:48-49 | each further output line adds itself and one `\n` at the end of the text |
| H2Inc.Render | helpers/h2inc.py:46-49 | the writing loop produces `"; Auto-generated from C header\n"` followed by each output line and `"\n"` |
| H2Inc.JoinedReadBack | helpers/h2inc.py:48-49 | the written output lines read back as those lines, each with its `\n` |
| H2Inc.ContentReadBack | helpers/h2inc.py:46-49 | the written file reads back as the header comment line and then each output line |
| H2Inc.Convert | helpers/h2inc.py:24-49 | the whole conversion of a header's text; ConvertReadBack states what it holds |
| H2Inc.ConvertReadBack | helpers/h2inc.py:24-49 | the converted file reads back as the header comment and then one line per matching line of the input, in order |
| H2Inc.RFind | helpers/h2inc.py:15 | `rfind` gives -1 or an index holding the character; RFindLast adds that none comes after it |
| H2Inc.RFindOf | helpers/h2inc.py:15 | an index of `c` with no `c` after it is the one `rfind` returns |
| H2Inc.RFindAppend | helpers/h2inc.py:15 | the last `c` of `p + q` is the one in `q`, or else the one in `p` |
| H2Inc.SplitExt | helpers/h2inc.py:15 | `splitext` cuts the path in two. There is an extension exactly when the last `.` is in the last path component with something other than a dot before it there. The extension then starts at that `.`, has no further `.` and no `/` |
| H2Inc.AsciiLower | helpers/h2inc.py:17 | `lower()` maps each ASCII capital to its small letter, keeps every other character and leaves no capital |
| H2Inc.DefaultOutputName | helpers/h2inc.py:15-20 | the derived output name ends with `.inc` |
| H2Inc.HeaderNameReplaced | helpers/h2inc.py:15-18 | a `.h` or `.hpp` extension, in any case, after a real stem is replaced by `.inc` |
| H2Inc.OtherNameExtended | helpers/h2inc.py:15-20 | any other name gets `.inc` appended |
| H2Inc.OutputName | helpers/h2inc.py:12-20 | an explicit second argument wins; otherwise the name is derived from the input path |
| H2Inc.Run | helpers/h2inc.py:5-49 | with no input argument the result is the usage message naming `argv[0]`; otherwise it writes the converted text to the output name |
| H2Inc.HeaderNameExample | helpers/h2inc.py:17-18 | `gdt.h` becomes `gdt.inc` |
| H2Inc.UpperCaseHeaders | helpers/h2inc.py:17-18 | `.H`, `.HPP` and `.Hpp` after a real stem are replaced by `.inc` like their lower-case forms |
| H2Inc.DotNameExample | helpers/h2inc.py:15-20 | `.h` has no extension, so it becomes `.h.inc` |
| H2Inc.OtherExtensionExample | helpers/h2inc.py:19-20 | `notes.txt` becomes `notes.txt.inc` |
| H2Inc.DirectoryDotExample | helpers/h2inc.py:15-20 | a dot in a directory name is no extension: `a.d/config` becomes `a.d/config.inc` |

## Left out

- The assembly routines `gdt_load_register` and `tss_load_register` (`gdt.c:195`, `gdt.c:200`) are not visible. They are modelled only as trace events.
- Gdt.GlobalDescriptorTable.LoadTaskRegister assumes the assembly loads selector `GDT_TSS_OFFSET` (0x28), so `ltr` reads slot 5. The selector lives in that assembly. `InitTraceSucceeds` and `Boot` rest on this assumption.
- Real addresses are parameters: the address of `gdt[]`, and `(uint32_t)&tss_entry` at `gdt.c:212`. The C compiler's packing is replaced by the explicit little-endian layout of `Packed`.
- The constants no table entry uses carry only their literal values; no property is claimed about them. These are `GDT_TYPE_TSS_32_BUSY` (0x09, as written), the `GDT_TYPE_TSS_16_*` constants, `GDT_TYPE_LDT` and `GDT_FLAG_64BIT`.
- Gdt.Loadable requires presence, system type 9 and a limit of at least 0x67.
  - The limit condition is stricter than `ltr`, which checks only the selector against the GDT limit, the type and presence.
  - The 0x67 minimum is what a later task switch needs (Intel SDM Vol. 3A, section 7.2.2).
  - The processor marking the descriptor busy, and every other fault, are not modelled.
- Later updates of `tss_entry.esp0` by other parts of the kernel are outside `gdt.c`.
- H2Inc.Run leaves out Python's I/O and control flow:
  - `sys.exit`;
  - opening, reading and writing the files;
  - the final `print`.

  The argument vector and the text of the input file are parameters, and the result is the text that would be written. `Run` requires a non-empty argument vector, since the usage message names `argv[0]`.
- Reading the file decodes bytes under the locale's encoding. That decoding is not modelled: the input is already a string of code points.
- Writing uses `"\n"` as written; text mode on Windows would write `"\r\n"`.
- H2Inc.AsciiLower is `str.lower()` on ASCII letters only. This is enough to decide whether an extension is `.h` or `.hpp`: a non-ASCII character never lowercases to one of those letters.
- H2Inc.SplitExt is `posixpath.splitext`; the Windows variant `ntpath.splitext` is not modelled.
- The regular-expression engine is replaced by the explicit matcher `H2Inc.Scan`. It reads `#define`, then `\s+`, then group 1, then `\s+`, then group 2 as `.*`. Each piece is taken greedily, with the backtracking the pattern allows: greedy `\s+` followed by a non-space group start never backtracks, so none is needed.
