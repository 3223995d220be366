/**
 * The kernel's Global Descriptor Table (Intel SDM Vol. 3A, sections 3.5 and
 * 3.5.1): the null descriptor, flat 4 GiB kernel and user code and data
 * segments, and a slot for the TSS descriptor that `gdt_install_tss` fills
 * in; the GDTR payload pointing at the table; and `init_gdt`, which loads
 * GDTR, installs the TSS descriptor and loads the task register.
 *
 * The two assembly routines are not visible: their calls are recorded as
 * events of a ghost trace, together with the TSS install, and the order is
 * judged against what loading the task register needs.
 */
module Gdt {
  import opened Wrappers
  import opened Packed
  import opened LocalConfig
  import opened Descriptor
  import Tss

  /** `gdt[]` is sized by its largest designator, `[GDT_TSS_INDEX]`. */
  const GDT_ENTRIES: nat := TSS_INDEX as nat + 1

  // Access bytes and flags of the flat segments.
  const KERNEL_CODE_ACCESS: bv8 := ACCESS_PRESENT | ACCESS_RING0 | ACCESS_CODE_SEGMENT | ACCESS_CODE_READABLE
  const KERNEL_DATA_ACCESS: bv8 := ACCESS_PRESENT | ACCESS_RING0 | ACCESS_DATA_SEGMENT | ACCESS_DATA_WRITEABLE
  const USER_CODE_ACCESS: bv8 := ACCESS_PRESENT | ACCESS_RING3 | ACCESS_CODE_SEGMENT | ACCESS_CODE_READABLE
  const USER_DATA_ACCESS: bv8 := ACCESS_PRESENT | ACCESS_RING3 | ACCESS_DATA_SEGMENT | ACCESS_DATA_WRITEABLE
  const FLAT_FLAGS: bv8 := FLAG_32BIT | FLAG_GRANULARITY_4K

  /** A segment over the whole 4 GiB address space: base 0, 0xFFFFF pages. */
  function FlatSegment(access: bv8): GdtEntry
  {
    Encode(0, 0xFFFFF, access, FLAT_FLAGS)
  }

  /** Slot `i` of the static initialiser; the TSS slot is left zero. */
  function InitialEntry(i: nat): (e: GdtEntry)
    ensures i == 0 || i >= TSS_INDEX as nat ==> e == NULL_ENTRY
    ensures 0 < i < TSS_INDEX as nat ==> IsFlat(e) && Dpl(e) == if i < USER_CS_INDEX as nat then 0 else 3
  {
    NullEntryBytes();
    if i == 0 then Encode(0, 0, 0, 0)
    else if i == KERNEL_CS_INDEX as nat then FlatSegment(KERNEL_CODE_ACCESS)
    else if i == KERNEL_DS_INDEX as nat then FlatSegment(KERNEL_DATA_ACCESS)
    else if i == USER_CS_INDEX as nat then FlatSegment(USER_CODE_ACCESS)
    else if i == USER_DS_INDEX as nat then FlatSegment(USER_DATA_ACCESS)
    else NULL_ENTRY
  }

  const INITIAL_TABLE: seq<GdtEntry> := seq(GDT_ENTRIES, i requires 0 <= i < GDT_ENTRIES => InitialEntry(i))

  /**
   * The table has six slots, so the TSS index names one of them; slot 0 is
   * all zero, in every member and in every byte; the TSS slot starts out zero
   * and therefore not present.
   */
  lemma InitialTableShape()
    ensures |INITIAL_TABLE| == GDT_ENTRIES == 6
    ensures TSS_INDEX as nat < |INITIAL_TABLE|
    ensures INITIAL_TABLE[0] == NULL_ENTRY
    ensures Serialize(INITIAL_TABLE[0]) == [0, 0, 0, 0, 0, 0, 0, 0]
    ensures INITIAL_TABLE[TSS_INDEX] == NULL_ENTRY && !Present(INITIAL_TABLE[TSS_INDEX])
  {
    NullEntryBytes();
  }

  /** What every flat segment of the table shares. */
  predicate IsFlat(e: GdtEntry)
  {
    DecodeBase(e) == 0 && e.limitLow == 0xFFFF && e.flagsLimitHi == 0xCF &&
    Present(e) && !IsSystem(e) && Granularity4K(e) && Default32(e) && ByteLimit(e) == 0xFFFFFFFF
  }

  /**
   * Slots 1-4 are flat segments with base 0, limit_low 0xFFFF and
   * flags_limit_hi 0xCF, reaching byte 0xFFFFFFFF; the access bytes are
   * 0x9A, 0x92, 0xFA and 0xF2; DPL is 0 for the kernel ones and 3 for the
   * user ones; code segments are execute/read (type 0xA), data segments
   * read/write (type 0x2).
   */
  lemma FlatSegments()
    ensures var t := INITIAL_TABLE;
      IsFlat(t[KERNEL_CS_INDEX]) && IsFlat(t[KERNEL_DS_INDEX]) &&
      IsFlat(t[USER_CS_INDEX]) && IsFlat(t[USER_DS_INDEX])
    ensures INITIAL_TABLE[KERNEL_CS_INDEX].access == 0x9A && INITIAL_TABLE[KERNEL_DS_INDEX].access == 0x92
    ensures INITIAL_TABLE[USER_CS_INDEX].access == 0xFA && INITIAL_TABLE[USER_DS_INDEX].access == 0xF2
    ensures Dpl(INITIAL_TABLE[KERNEL_CS_INDEX]) == 0 && Dpl(INITIAL_TABLE[KERNEL_DS_INDEX]) == 0
    ensures Dpl(INITIAL_TABLE[USER_CS_INDEX]) == 3 && Dpl(INITIAL_TABLE[USER_DS_INDEX]) == 3
    ensures SegmentType(INITIAL_TABLE[KERNEL_CS_INDEX]) == 0xA && SegmentType(INITIAL_TABLE[USER_CS_INDEX]) == 0xA
    ensures SegmentType(INITIAL_TABLE[KERNEL_DS_INDEX]) == 0x2 && SegmentType(INITIAL_TABLE[USER_DS_INDEX]) == 0x2
  {
  }

  // ---------------------------------------------------------------------
  // The TSS descriptor

  /**
   * The descriptor `gdt_install_tss` builds for the TSS at `tssAddress`:
   * base the TSS's address, limit `sizeof(TSSEntry) - 1` = 103 counted in
   * bytes, access 0xE9 (present, DPL 3, system, type 9 = available 32-bit
   * TSS), flags nibble 0.
   */
  function TssDescriptor(tssAddress: bv32): (e: GdtEntry)
    ensures DecodeBase(e) == tssAddress
    ensures DecodeLimit(e) == 103 && ByteLimit(e) == 103
    ensures e.access == 0xE9 && DecodeFlags(e) == 0
    ensures Present(e) && Dpl(e) == 3 && IsSystem(e) && SegmentType(e) == TYPE_TSS_32_AVAIL
  {
    Tss.TssOffsets();
    Encode(tssAddress, (Tss.TSS_SIZE - 1) as bv32, ACCESS_PRESENT | ACCESS_RING3 | TYPE_TSS_32_AVAIL, FLAG_GRANULARITY_1B)
  }

  /** The descriptor's segment is exactly the bytes of a TSS. */
  lemma TssDescriptorCoversTss(tssAddress: bv32, tss: Tss.TssEntry)
    ensures ByteLimit(TssDescriptor(tssAddress)) as int + 1 == |Tss.Serialize(tss)|
  {
    Tss.TssOffsets();
  }

  /** The table after `gdt_install_tss`: the TSS slot replaced, nothing else touched. */
  function WithTss(t: seq<GdtEntry>, tssAddress: bv32): (u: seq<GdtEntry>)
    requires TSS_INDEX as int < |t|
    ensures |u| == |t|
    ensures u[TSS_INDEX] == TssDescriptor(tssAddress)
    ensures forall i | 0 <= i < |t| && i != TSS_INDEX as int :: u[i] == t[i]
  {
    t[TSS_INDEX as int := TssDescriptor(tssAddress)]
  }

  /** Installing twice leaves the same table as installing once. */
  lemma InstallIdempotent(t: seq<GdtEntry>, tssAddress: bv32)
    requires TSS_INDEX as int < |t|
    ensures WithTss(WithTss(t, tssAddress), tssAddress) == WithTss(t, tssAddress)
  {
  }

  /** Whatever the TSS slot held before, the installed table is the same. */
  lemma InstallForgetsTheOldSlot(t: seq<GdtEntry>, e: GdtEntry, tssAddress: bv32)
    requires TSS_INDEX as int < |t|
    ensures WithTss(t[TSS_INDEX as int := e], tssAddress) == WithTss(t, tssAddress)
  {
  }

  // ---------------------------------------------------------------------
  // GDTR

  /** `GDTDescriptor`: the 6-byte operand of `lgdt`. */
  datatype GdtDescriptor = GdtDescriptor(limit: bv16, address: bv32)

  const GDTR_LAYOUT: seq<Kind> := [K16, K32]

  /**
   * `gdt_discriptor`: limit `sizeof(gdt) - 1` = 6 * 8 - 1 = 47, the offset
   * of the table's last byte, and the table's address.
   */
  function TableDescriptor(address: bv32): (d: GdtDescriptor)
    ensures d.limit == 47 && d.limit as int + 1 == GDT_ENTRIES * ENTRY_SIZE
    ensures d.address == address
  {
    GdtDescriptor((GDT_ENTRIES * ENTRY_SIZE - 1) as bv16, address)
  }

  /** The descriptor at `index` lies inside the table GDTR describes. */
  predicate CoversSlot(d: GdtDescriptor, index: bv16)
  {
    index as int * ENTRY_SIZE + ENTRY_SIZE - 1 <= d.limit as int
  }

  /** The table's GDTR covers every slot of the table and no more. */
  lemma TableDescriptorCoversTable(address: bv32)
    ensures forall i: bv16 | i as int < GDT_ENTRIES :: CoversSlot(TableDescriptor(address), i)
    ensures !CoversSlot(TableDescriptor(address), GDT_ENTRIES as bv16)
  {
  }

  function GdtrFields(d: GdtDescriptor): (fs: seq<Field>)
    ensures LayoutOf(fs) == GDTR_LAYOUT
  {
    var fs := [U16(d.limit), U32(d.address)];
    assert forall i | 0 <= i < |fs| :: KindOf(fs[i]) == GDTR_LAYOUT[i];
    fs
  }

  lemma GdtrOffsets()
    ensures Offset(Widths(GDTR_LAYOUT), 1) == 2 && Sum(Widths(GDTR_LAYOUT)) == 6
  {
    var ws := Widths(GDTR_LAYOUT);
    assert Offset(ws, 1) == 2;
    assert Offset(ws, 2) == 6;
  }

  /** The 6 bytes `lgdt` reads. */
  function GdtrBytes(d: GdtDescriptor): (b: seq<bv8>)
    ensures |b| == 6
  {
    GdtrOffsets();
    Flatten(GdtrFields(d))
  }

  /** The limit comes first, little-endian, then the 32-bit linear address. */
  lemma GdtrLayout(d: GdtDescriptor)
    ensures GdtrBytes(d)[0..2] == Bytes(U16(d.limit))
    ensures GdtrBytes(d)[2..6] == Bytes(U32(d.address))
  {
    GdtrOffsets();
    FieldAt(GdtrFields(d), GDTR_LAYOUT, 0);
    FieldAt(GdtrFields(d), GDTR_LAYOUT, 1);
  }

  /** Reads a GDTR operand back from its 6 bytes. */
  function ParseGdtr(b: seq<bv8>): (d: GdtDescriptor)
    requires |b| == 6
    ensures GdtrBytes(d) == b
  {
    GdtrOffsets();
    var fs := Unflatten(GDTR_LAYOUT, b);
    assert KindOf(fs[0]) == LayoutOf(fs)[0] && KindOf(fs[1]) == LayoutOf(fs)[1];
    var d := GdtDescriptor(fs[0].h, fs[1].w);
    assert GdtrFields(d) == fs;
    d
  }

  lemma ParseGdtrBytes(d: GdtDescriptor)
    ensures ParseGdtr(GdtrBytes(d)) == d
  {
    UnflattenFlatten(GdtrFields(d));
  }

  // ---------------------------------------------------------------------
  // The boot sequence

  /**
   * What `init_gdt` does, in order: `lgdt` of a GDTR payload, the write of
   * the TSS descriptor into its slot, and `ltr`, which reads the TSS slot of
   * the loaded table as it is at that moment.
   */
  datatype Event =
    | LoadGdtr(gdtr: GdtDescriptor)
    | InstallTss(descriptor: GdtEntry)
    | LoadTr(tssSlot: GdtEntry)

  /** Whether a GDTR has been loaded, and then the task register. */
  datatype Stage = NoTable | TableLoaded | TaskLoaded

  /**
   * A descriptor the task register is taken to be loadable from: present,
   * a system descriptor of type available 32-bit TSS (what `ltr` checks,
   * SDM Vol. 3A, `LTR` instruction), and a limit of at least 0x67, the size
   * of a TSS minus one. `ltr` itself does not check that limit; a later task
   * switch faults without it (SDM Vol. 3A, section 7.2.2), so this condition
   * is stricter than `ltr`.
   */
  predicate Loadable(e: GdtEntry)
  {
    Present(e) && IsSystem(e) && SegmentType(e) == TYPE_TSS_32_AVAIL && ByteLimit(e) >= 0x67
  }

  /**
   * One event from one stage. A GDTR is accepted once, before anything
   * else is loaded, exactly when it covers the TSS slot; a descriptor write
   * is accepted in every stage before `ltr` and leaves the stage as it is;
   * `ltr` is accepted exactly when a GDTR is loaded and the slot is
   * loadable, and it is final. The machine judges one boot as `init_gdt`
   * performs it: it refuses a second `lgdt`, any event after `ltr`, and an
   * `lgdt` whose limit misses the TSS slot. The processor would accept the
   * first two, and would fault on the third only at `ltr`.
   */
  function Step(s: Stage, e: Event): (r: Option<Stage>)
    ensures e.LoadGdtr? ==> (r.Some? <==> s == NoTable && CoversSlot(e.gdtr, TSS_INDEX))
    ensures e.InstallTss? ==> (r.Some? <==> s != TaskLoaded)
    ensures e.LoadTr? ==> (r.Some? <==> s == TableLoaded && Loadable(e.tssSlot))
    ensures r.Some? && e.LoadGdtr? ==> r.value == TableLoaded
    ensures r.Some? && e.InstallTss? ==> r.value == s
    ensures r.Some? && e.LoadTr? ==> r.value == TaskLoaded
  {
    match e
    case LoadGdtr(g) => if s == NoTable && CoversSlot(g, TSS_INDEX) then Some(TableLoaded) else None
    case InstallTss(_) => if s != TaskLoaded then Some(s) else None
    case LoadTr(slot) => if s == TableLoaded && Loadable(slot) then Some(TaskLoaded) else None
  }

  /** The stage after a sequence of events, or `None` if one of them faults. */
  function Replay(s: Stage, events: seq<Event>): Option<Stage>
    decreases |events|
  {
    if events == [] then Some(s)
    else match Step(s, events[0])
      case None => None
      case Some(s') => Replay(s', events[1..])
  }

  /** The events `init_gdt` produces. */
  function InitTrace(gdtr: GdtDescriptor, tssDescriptor: GdtEntry): (events: seq<Event>)
    ensures |events| == 3
  {
    [LoadGdtr(gdtr), InstallTss(tssDescriptor), LoadTr(tssDescriptor)]
  }

  /**
   * Booting this table goes through without a fault and ends with the task
   * register loaded from the installed TSS descriptor.
   */
  lemma InitTraceSucceeds(address: bv32, tssAddress: bv32)
    ensures Replay(NoTable, InitTrace(TableDescriptor(address), TssDescriptor(tssAddress))) == Some(TaskLoaded)
  {
    var d := TssDescriptor(tssAddress);
    var events := InitTrace(TableDescriptor(address), d);
    assert [LoadTr(d)][1..] == [];
    assert Replay(TableLoaded, [LoadTr(d)]) == Some(TaskLoaded);
    assert [InstallTss(d), LoadTr(d)][1..] == [LoadTr(d)];
    assert Replay(TableLoaded, [InstallTss(d), LoadTr(d)]) == Some(TaskLoaded);
    assert events[1..] == [InstallTss(d), LoadTr(d)];
  }

  /**
   * Any fault-free sequence that ends with the task register loaded loads
   * it exactly once, last, from a loadable descriptor, and loads GDTR once,
   * before that, with a limit covering the TSS slot.
   */
  lemma {:induction false} ReplayOrder(events: seq<Event>)
    requires Replay(NoTable, events) == Some(TaskLoaded)
    ensures |events| >= 2 && events[|events| - 1].LoadTr? && Loadable(events[|events| - 1].tssSlot)
    ensures forall i | 0 <= i < |events| - 1 :: !events[i].LoadTr?
    ensures exists g | 0 <= g < |events| - 1 :: events[g].LoadGdtr? && CoversSlot(events[g].gdtr, TSS_INDEX)
  {
    var e, rest := events[0], events[1..];
    assert events == [e] + rest;
    if e.InstallTss? {
      assert Step(NoTable, e) == Some(NoTable);
      ReplayOrder(rest);
      var g :| 0 <= g < |rest| - 1 && rest[g].LoadGdtr? && CoversSlot(rest[g].gdtr, TSS_INDEX);
      assert events[g + 1] == rest[g];
    } else {
      assert Step(NoTable, e) == Some(TableLoaded);
      AfterGdtr(rest);
      assert events[0].LoadGdtr?;
    }
  }

  /** From a loaded table, a fault-free run to the loaded task register. */
  lemma {:induction false} AfterGdtr(events: seq<Event>)
    requires Replay(TableLoaded, events) == Some(TaskLoaded)
    ensures |events| >= 1 && events[|events| - 1].LoadTr? && Loadable(events[|events| - 1].tssSlot)
    ensures forall i | 0 <= i < |events| - 1 :: events[i].InstallTss?
  {
    var e := events[0];
    if e.LoadTr? {
      TaskLoadedIsFinal(events[1..]);
    } else {
      assert e.InstallTss?;
      AfterGdtr(events[1..]);
      assert events == [e] + events[1..];
    }
  }

  /** After the task register is loaded, no further event is accepted. */
  lemma TaskLoadedIsFinal(events: seq<Event>)
    ensures Replay(TaskLoaded, events).Some? <==> events == []
  {
    if events != [] {
      assert Step(TaskLoaded, events[0]) == None;
    }
  }

  /**
   * Without the install, the task register would be loaded from the zero
   * slot of the static table, and that faults; so would loading it before
   * GDTR.
   */
  lemma OrderMatters(address: bv32, tssAddress: bv32)
    ensures Replay(NoTable, [LoadGdtr(TableDescriptor(address)), LoadTr(INITIAL_TABLE[TSS_INDEX])]) == None
    ensures Replay(NoTable, [LoadTr(TssDescriptor(tssAddress)), LoadGdtr(TableDescriptor(address))]) == None
  {
    InitialTableShape();
  }

  /**
   * `gdt[]`, `gdt_discriptor` and the routines of the file. The table is the
   * array that `gdt_install_tss` writes; `address` stands for the linear
   * address of `gdt[]`, which only the linker knows.
   */
  class GlobalDescriptorTable {
    const entries: array<GdtEntry>
    const address: bv32
    ghost var trace: seq<Event>

    ghost predicate Valid()
      reads this
    {
      entries.Length == GDT_ENTRIES
    }

    /** The table as statically initialised, before anything ran. */
    constructor (address: bv32)
      ensures Valid() && fresh(entries)
      ensures entries[..] == INITIAL_TABLE && this.address == address && trace == []
    {
      entries := new GdtEntry[GDT_ENTRIES](i requires 0 <= i < GDT_ENTRIES => InitialEntry(i));
      this.address := address;
      trace := [];
    }

    /** `gdt_discriptor`. */
    function Gdtr(): (d: GdtDescriptor)
      reads this
      ensures d.limit == 47 && d.address == address
    {
      TableDescriptor(address)
    }

    /** `gdt_load_register`: `lgdt` with the given payload. */
    method LoadGdtRegister(gdtr: GdtDescriptor)
      requires Valid()
      modifies this`trace
      ensures Valid()
      ensures trace == old(trace) + [LoadGdtr(gdtr)]
    {
      trace := trace + [LoadGdtr(gdtr)];
    }

    /** `gdt_install_tss`, for the TSS at `tssAddress`. */
    method InstallTss(tssAddress: bv32)
      requires Valid()
      modifies entries, this`trace
      ensures Valid()
      ensures entries[..] == WithTss(old(entries[..]), tssAddress)
      ensures trace == old(trace) + [Event.InstallTss(TssDescriptor(tssAddress))]
    {
      var descriptor := TssDescriptor(tssAddress);
      entries[TSS_INDEX] := descriptor;
      trace := trace + [Event.InstallTss(descriptor)];
    }

    /** `tss_load_register`: `ltr`, which reads the TSS slot as it is now. */
    method LoadTaskRegister()
      requires Valid()
      modifies this`trace
      ensures Valid()
      ensures trace == old(trace) + [LoadTr(entries[TSS_INDEX])]
    {
      trace := trace + [LoadTr(entries[TSS_INDEX])];
    }

    /**
     * `init_gdt`: exactly the three events, in order, with the task
     * register loaded from the freshly installed descriptor; the table
     * changes in the TSS slot only.
     */
    method Init(tssAddress: bv32)
      requires Valid()
      modifies entries, this`trace
      ensures Valid()
      ensures entries[..] == WithTss(old(entries[..]), tssAddress)
      ensures trace == old(trace) + InitTrace(TableDescriptor(address), TssDescriptor(tssAddress))
    {
      LoadGdtRegister(Gdtr());
      InstallTss(tssAddress);
      LoadTaskRegister();
    }
  }

  /**
   * A boot from the static table: afterwards the TSS slot holds a loadable
   * descriptor for the TSS at `tssAddress`, the other slots are as
   * initialised, and the recorded events replay without a fault.
   */
  method Boot(address: bv32, tssAddress: bv32) returns (table: seq<GdtEntry>, ghost events: seq<Event>)
    ensures |table| == GDT_ENTRIES && table == WithTss(INITIAL_TABLE, tssAddress)
    ensures Loadable(table[TSS_INDEX]) && DecodeBase(table[TSS_INDEX]) == tssAddress
    ensures forall i | 0 <= i < |table| && i != TSS_INDEX as int :: table[i] == INITIAL_TABLE[i]
    ensures Replay(NoTable, events) == Some(TaskLoaded)
  {
    var gdt := new GlobalDescriptorTable(address);
    gdt.Init(tssAddress);
    table := gdt.entries[..];
    events := gdt.trace;
    assert events == InitTrace(TableDescriptor(address), TssDescriptor(tssAddress));
    InitTraceSucceeds(address, tssAddress);
  }
}
