/**
 * The 8-byte i386 segment descriptor (Intel SDM Vol. 3A, section 3.4.5,
 * Figure 3-8) as the kernel declares it, its `GDT_PACK_*` / `GDT_ENTRY`
 * encoder, the matching decoders and its in-memory bytes.
 */
module Descriptor {
  import opened Packed

  // Access byte: type (bits 0-3), S (bit 4), DPL (bits 5-6), P (bit 7).
  // System types (S = 0) for the TSS and LDT, with the values the kernel
  // gives them; only TYPE_TSS_32_AVAIL is used by a table entry.
  const TYPE_TSS_32_AVAIL: bv8 := 0x09
  const TYPE_TSS_32_BUSY: bv8 := 0x09
  const TYPE_TSS_16_AVAIL: bv8 := 0x09
  const TYPE_TSS_16_BUSY: bv8 := 0x09
  const TYPE_LDT: bv8 := 0x02
  const ACCESS_DESCRIPTOR_TSS: bv8 := 0x00

  const ACCESS_CODE_READABLE: bv8 := 0x02
  const ACCESS_DATA_WRITEABLE: bv8 := 0x02
  const ACCESS_CODE_CONFORMING: bv8 := 0x04
  const ACCESS_DATA_DIRECTION_NORMAL: bv8 := 0x00
  const ACCESS_DATA_DIRECTION_DOWN: bv8 := 0x04
  const ACCESS_DATA_SEGMENT: bv8 := 0x10
  const ACCESS_CODE_SEGMENT: bv8 := 0x18

  const ACCESS_RING0: bv8 := 0x00
  const ACCESS_RING1: bv8 := 0x20
  const ACCESS_RING2: bv8 := 0x40
  const ACCESS_RING3: bv8 := 0x60
  const ACCESS_PRESENT: bv8 := 0x80

  // Flags, given in the high nibble of the byte they share with limit 16-19.
  const FLAG_64BIT: bv8 := 0x20
  const FLAG_32BIT: bv8 := 0x40
  const FLAG_16BIT: bv8 := 0x00
  const FLAG_GRANULARITY_1B: bv8 := 0x00
  const FLAG_GRANULARITY_4K: bv8 := 0x80

  /** One GDT entry, members in declaration order. */
  datatype GdtEntry = GdtEntry(
    limitLow: bv16,
    baseLow: bv16,
    baseMiddle: bv8,
    access: bv8,
    flagsLimitHi: bv8,
    baseHigh: bv8)

  /** `sizeof(GDTEntry)`. */
  const ENTRY_SIZE: nat := 8

  const NULL_ENTRY: GdtEntry := GdtEntry(0, 0, 0, 0, 0, 0)

  // The `GDT_PACK_*` macros.
  function PackLimitLow(limit: bv32): bv16 { (limit & 0xFFFF) as bv16 }
  function PackBaseLow(base: bv32): bv16 { (base & 0xFFFF) as bv16 }
  function PackBaseMiddle(base: bv32): bv8 { ((base >> 16) & 0xFF) as bv8 }
  function PackFlagsLimitHi(limit: bv32, flags: bv8): bv8
  {
    (((limit >> 16) & 0x0F) as bv8) | (flags & 0xF0)
  }
  function PackBaseHigh(base: bv32): bv8 { ((base >> 24) & 0xFF) as bv8 }

  // Reassembling the split fields.

  /** The base: `base_low` is bits 0-15, `base_middle` 16-23, `base_high` 24-31. */
  function DecodeBase(e: GdtEntry): (base: bv32)
    ensures base & 0xFFFF == e.baseLow as bv32
    ensures (base >> 16) & 0xFF == e.baseMiddle as bv32
    ensures base >> 24 == e.baseHigh as bv32
  {
    (e.baseLow as bv32) | ((e.baseMiddle as bv32) << 16) | ((e.baseHigh as bv32) << 24)
  }

  function DecodeLimit(e: GdtEntry): (limit: bv32)
    ensures limit <= 0xFFFFF
  {
    (e.limitLow as bv32) | (((e.flagsLimitHi & 0x0F) as bv32) << 16)
  }

  /** The flags are the high nibble of `flags_limit_hi`, in place; the low nibble is limit. */
  function DecodeFlags(e: GdtEntry): (flags: bv8)
    ensures flags & 0x0F == 0
    ensures flags >> 4 == e.flagsLimitHi >> 4
  {
    e.flagsLimitHi & 0xF0
  }

  /**
   * `GDT_ENTRY(base, limit, access, flags)`. The whole base comes back; of
   * the limit only bits 0-19 are kept, the rest are dropped without any
   * error; the access byte is stored as given; of the flags only the high
   * nibble is kept, and it never touches the limit bits.
   */
  function Encode(base: bv32, limit: bv32, access: bv8, flags: bv8): (e: GdtEntry)
    ensures DecodeBase(e) == base
    ensures DecodeLimit(e) == limit & 0xFFFFF
    ensures DecodeFlags(e) == flags & 0xF0
    ensures e.access == access
  {
    GdtEntry(
      PackLimitLow(limit),
      PackBaseLow(base),
      PackBaseMiddle(base),
      access,
      PackFlagsLimitHi(limit, flags),
      PackBaseHigh(base))
  }

  /** Every entry is the encoding of what it decodes to. */
  lemma EncodeDecode(e: GdtEntry)
    ensures Encode(DecodeBase(e), DecodeLimit(e), e.access, DecodeFlags(e)) == e
  {
  }

  /** Limit bits above 19 and the low flag nibble have no effect at all. */
  lemma EncodeIgnoresDroppedBits(base: bv32, limit: bv32, access: bv8, flags: bv8)
    ensures Encode(base, limit, access, flags) == Encode(base, limit & 0xFFFFF, access, flags & 0xF0)
  {
  }

  // Fields of the access byte and of the flags nibble.
  predicate Present(e: GdtEntry) { e.access & ACCESS_PRESENT != 0 }
  function Dpl(e: GdtEntry): bv8 { (e.access >> 5) & 3 }
  /** S = 0 marks a system descriptor such as a TSS. */
  predicate IsSystem(e: GdtEntry) { e.access & 0x10 == 0 }
  function SegmentType(e: GdtEntry): bv8 { e.access & 0x0F }
  predicate Granularity4K(e: GdtEntry) { e.flagsLimitHi & FLAG_GRANULARITY_4K != 0 }
  predicate Default32(e: GdtEntry) { e.flagsLimitHi & FLAG_32BIT != 0 }

  /**
   * The last valid byte offset of the segment: the 20-bit limit counts
   * bytes, or whole 4 KiB pages when G is set.
   */
  function ByteLimit(e: GdtEntry): (n: bv32)
    ensures !Granularity4K(e) ==> n == DecodeLimit(e)
    ensures Granularity4K(e) ==> n >> 12 == DecodeLimit(e) && n & 0xFFF == 0xFFF
  {
    if Granularity4K(e) then PageLimit(DecodeLimit(e)) else DecodeLimit(e)
  }

  /** A 20-bit limit counted in 4 KiB pages, as the offset of the last byte. */
  function PageLimit(pages: bv32): (n: bv32)
    requires pages <= 0xFFFFF
    ensures n >> 12 == pages && n & 0xFFF == 0xFFF
  {
    (pages << 12) | 0xFFF
  }

  // In-memory bytes.

  const ENTRY_LAYOUT: seq<Kind> := [K16, K16, K8, K8, K8, K8]

  function Fields(e: GdtEntry): (fs: seq<Field>)
    ensures LayoutOf(fs) == ENTRY_LAYOUT
  {
    [U16(e.limitLow), U16(e.baseLow), U8(e.baseMiddle), U8(e.access), U8(e.flagsLimitHi), U8(e.baseHigh)]
  }

  function FromFields(fs: seq<Field>): (e: GdtEntry)
    requires LayoutOf(fs) == ENTRY_LAYOUT
    ensures Fields(e) == fs
  {
    assert forall i | 0 <= i < 6 :: KindOf(fs[i]) == LayoutOf(fs)[i];
    GdtEntry(fs[0].h, fs[1].h, fs[2].b, fs[3].b, fs[4].b, fs[5].b)
  }

  /** `offsetof` each member, and `sizeof(GDTEntry)`. */
  lemma EntryOffsets()
    ensures var ws := Widths(ENTRY_LAYOUT);
      Offset(ws, 1) == 2 && Offset(ws, 2) == 4 && Offset(ws, 3) == 5 &&
      Offset(ws, 4) == 6 && Offset(ws, 5) == 7 && Sum(ws) == ENTRY_SIZE
  {
    var ws := Widths(ENTRY_LAYOUT);
    assert Offset(ws, 1) == 2;
    assert Offset(ws, 2) == 4;
    assert Offset(ws, 3) == 5;
    assert Offset(ws, 4) == 6;
    assert Offset(ws, 5) == 7;
    assert Offset(ws, 6) == 8;
  }

  /**
   * The 8 bytes of an entry in memory: limit 0-15 and base 0-15 little
   * endian, then base 16-23, the access byte, flags with limit 16-19, and
   * base 24-31, the order Figure 3-8 gives.
   */
  function Serialize(e: GdtEntry): (b: seq<bv8>)
    ensures |b| == ENTRY_SIZE
  {
    [(e.limitLow & 0xFF) as bv8, (e.limitLow >> 8) as bv8,
     (e.baseLow & 0xFF) as bv8, (e.baseLow >> 8) as bv8,
     e.baseMiddle, e.access, e.flagsLimitHi, e.baseHigh]
  }

  /** Where each member of an entry lands among the packed bytes. */
  lemma EntryMembersAt(e: GdtEntry)
    ensures var b := Flatten(Fields(e));
      |b| == ENTRY_SIZE &&
      b[0..2] == Bytes(U16(e.limitLow)) && b[2..4] == Bytes(U16(e.baseLow)) &&
      b[4] == e.baseMiddle && b[5] == e.access && b[6] == e.flagsLimitHi && b[7] == e.baseHigh
  {
    var fs := Fields(e);
    var b := Flatten(fs);
    EntryOffsets();
    FieldAt(fs, ENTRY_LAYOUT, 0);
    FieldAt(fs, ENTRY_LAYOUT, 1);
    assert b[4..5] == [e.baseMiddle] by { FieldAt(fs, ENTRY_LAYOUT, 2); }
    assert b[5..6] == [e.access] by { FieldAt(fs, ENTRY_LAYOUT, 3); }
    assert b[6..7] == [e.flagsLimitHi] by { FieldAt(fs, ENTRY_LAYOUT, 4); }
    assert b[7..8] == [e.baseHigh] by { FieldAt(fs, ENTRY_LAYOUT, 5); }
    assert b[4] == b[4..5][0] && b[5] == b[5..6][0] && b[6] == b[6..7][0] && b[7] == b[7..8][0];
  }

  /** Those bytes are exactly the packed struct's members in declaration order. */
  lemma SerializeIsPackedLayout(e: GdtEntry)
    ensures Serialize(e) == Flatten(Fields(e))
  {
    var b := Flatten(Fields(e));
    var s := Serialize(e);
    EntryMembersAt(e);
    assert b[0] == b[0..2][0] && b[1] == b[0..2][1];
    assert b[2] == b[2..4][0] && b[3] == b[2..4][1];
  }

  /** Reads an entry back from its 8 bytes. */
  function Parse(b: seq<bv8>): (e: GdtEntry)
    requires |b| == ENTRY_SIZE
    ensures Serialize(e) == b
  {
    EntryOffsets();
    var e := FromFields(Unflatten(ENTRY_LAYOUT, b));
    SerializeIsPackedLayout(e);
    e
  }

  lemma ParseSerialize(e: GdtEntry)
    ensures Parse(Serialize(e)) == e
  {
    SerializeIsPackedLayout(e);
    UnflattenFlatten(Fields(e));
  }

  /** The null descriptor is eight zero bytes. */
  lemma NullEntryBytes()
    ensures Serialize(NULL_ENTRY) == [0, 0, 0, 0, 0, 0, 0, 0]
    ensures NULL_ENTRY == Encode(0, 0, 0, 0)
  {
  }
}
