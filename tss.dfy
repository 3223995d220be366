/**
 * The 32-bit Task State Segment (Intel SDM Vol. 3A, sections 7.2.1-7.2.2,
 * Figure 7-2) as the kernel declares it: every 16-bit selector is followed
 * by a reserved 16-bit member so that the members land on the offsets the
 * processor expects, and the struct is packed. The kernel's single
 * `tss_entry` is given the ring-0 stack segment and ring-3 segment presets.
 */
module Tss {
  import opened Packed
  import opened LocalConfig

  /** `TSSEntry`, members in declaration order (`resN` are the `_resN` fillers). */
  datatype TssEntry = TssEntry(
    backlink: bv16, res0: bv16,
    esp0: bv32,
    ss0: bv16, res1: bv16,
    esp1: bv32,
    ss1: bv16, res2: bv16,
    esp2: bv32,
    ss2: bv16, res3: bv16,
    cr3: bv32,
    eip: bv32,
    eflags: bv32,
    eax: bv32, ecx: bv32, edx: bv32, ebx: bv32,
    esp: bv32,
    ebp: bv32,
    esi: bv32,
    edi: bv32,
    es: bv16, res4: bv16,
    cs: bv16, res5: bv16,
    ss: bv16, res6: bv16,
    ds: bv16, res7: bv16,
    fs: bv16, res8: bv16,
    gs: bv16, res9: bv16,
    ldtSelector: bv16, res10: bv16,
    t: bv16, iomapBase: bv16)

  // The declaration is handled as seven runs of at most six members each:
  // the back link and ring-0 stack, the ring-1 and ring-2 stacks, cr3 to ecx,
  // edx to edi, es to ss, ds to gs, and the LDT selector to the I/O map base.
  const RING0_LAYOUT: seq<Kind> := [K16, K16, K32, K16, K16]
  const RING12_LAYOUT: seq<Kind> := [K32, K16, K16, K32, K16, K16]
  const CONTROL_LAYOUT: seq<Kind> := [K32, K32, K32, K32, K32]
  const REGISTER_LAYOUT: seq<Kind> := [K32, K32, K32, K32, K32, K32]
  const LOW_SEGMENT_LAYOUT: seq<Kind> := [K16, K16, K16, K16, K16, K16]
  const HIGH_SEGMENT_LAYOUT: seq<Kind> := [K16, K16, K16, K16, K16, K16]
  const TAIL_LAYOUT: seq<Kind> := [K16, K16, K16, K16]

  const TSS_LAYOUT: seq<Kind> :=
    RING0_LAYOUT + RING12_LAYOUT + CONTROL_LAYOUT + REGISTER_LAYOUT +
    LOW_SEGMENT_LAYOUT + HIGH_SEGMENT_LAYOUT + TAIL_LAYOUT

  // Positions of some members in the declaration.
  const ESP0_MEMBER: nat := 2
  const SS0_MEMBER: nat := 3
  const CR3_MEMBER: nat := 11
  const IOMAP_BASE_MEMBER: nat := 37

  /** `sizeof(TSSEntry)`. */
  const TSS_SIZE: nat := Sum(Widths(TSS_LAYOUT))

  /** The members of the back link and the ring-0 stack. */
  function Ring0Members(tss: TssEntry): (ms: seq<Field>)
    ensures LayoutOf(ms) == RING0_LAYOUT
  {
    var ms := [U16(tss.backlink), U16(tss.res0), U32(tss.esp0), U16(tss.ss0), U16(tss.res1)];
    assert forall i | 0 <= i < |ms| :: KindOf(ms[i]) == RING0_LAYOUT[i];
    ms
  }

  /** The members of the ring-1 and ring-2 stacks. */
  function Ring12Members(tss: TssEntry): (ms: seq<Field>)
    ensures LayoutOf(ms) == RING12_LAYOUT
  {
    var ms := [U32(tss.esp1), U16(tss.ss1), U16(tss.res2), U32(tss.esp2), U16(tss.ss2), U16(tss.res3)];
    assert forall i | 0 <= i < |ms| :: KindOf(ms[i]) == RING12_LAYOUT[i];
    ms
  }

  /** The members of cr3, eip, eflags, eax and ecx. */
  function ControlMembers(tss: TssEntry): (ms: seq<Field>)
    ensures LayoutOf(ms) == CONTROL_LAYOUT
  {
    var ms := [U32(tss.cr3), U32(tss.eip), U32(tss.eflags), U32(tss.eax), U32(tss.ecx)];
    assert forall i | 0 <= i < |ms| :: KindOf(ms[i]) == CONTROL_LAYOUT[i];
    ms
  }

  /** The members of the remaining general registers. */
  function RegisterMembers(tss: TssEntry): (ms: seq<Field>)
    ensures LayoutOf(ms) == REGISTER_LAYOUT
  {
    var ms := [U32(tss.edx), U32(tss.ebx), U32(tss.esp), U32(tss.ebp), U32(tss.esi), U32(tss.edi)];
    assert forall i | 0 <= i < |ms| :: KindOf(ms[i]) == REGISTER_LAYOUT[i];
    ms
  }

  /** The members of es, cs and ss. */
  function LowSegmentMembers(tss: TssEntry): (ms: seq<Field>)
    ensures LayoutOf(ms) == LOW_SEGMENT_LAYOUT
  {
    var ms := [U16(tss.es), U16(tss.res4), U16(tss.cs), U16(tss.res5), U16(tss.ss), U16(tss.res6)];
    assert forall i | 0 <= i < |ms| :: KindOf(ms[i]) == LOW_SEGMENT_LAYOUT[i];
    ms
  }

  /** The members of ds, fs and gs. */
  function HighSegmentMembers(tss: TssEntry): (ms: seq<Field>)
    ensures LayoutOf(ms) == HIGH_SEGMENT_LAYOUT
  {
    var ms := [U16(tss.ds), U16(tss.res7), U16(tss.fs), U16(tss.res8), U16(tss.gs), U16(tss.res9)];
    assert forall i | 0 <= i < |ms| :: KindOf(ms[i]) == HIGH_SEGMENT_LAYOUT[i];
    ms
  }

  /** The members of the LDT selector, the trap flag and the I/O map base. */
  function TailMembers(tss: TssEntry): (ms: seq<Field>)
    ensures LayoutOf(ms) == TAIL_LAYOUT
  {
    var ms := [U16(tss.ldtSelector), U16(tss.res10), U16(tss.t), U16(tss.iomapBase)];
    assert forall i | 0 <= i < |ms| :: KindOf(ms[i]) == TAIL_LAYOUT[i];
    ms
  }

  /** All members, in declaration order. */
  function Fields(tss: TssEntry): (ms: seq<Field>)
    ensures LayoutOf(ms) == TSS_LAYOUT
  {
    var r1, r2, r3, r4 := Ring0Members(tss), Ring12Members(tss), ControlMembers(tss), RegisterMembers(tss);
    var r5, r6, r7 := LowSegmentMembers(tss), HighSegmentMembers(tss), TailMembers(tss);
    LayoutOfAppend(r1, r2);
    LayoutOfAppend(r1 + r2, r3);
    LayoutOfAppend(r1 + r2 + r3, r4);
    LayoutOfAppend(r1 + r2 + r3 + r4, r5);
    LayoutOfAppend(r1 + r2 + r3 + r4 + r5, r6);
    LayoutOfAppend(r1 + r2 + r3 + r4 + r5 + r6, r7);
    r1 + r2 + r3 + r4 + r5 + r6 + r7
  }

  // Reading the members of one run back from their fields.

  function Ring0Values(ms: seq<Field>): (v: (bv16, bv16, bv32, bv16, bv16))
    requires LayoutOf(ms) == RING0_LAYOUT
    ensures [U16(v.0), U16(v.1), U32(v.2), U16(v.3), U16(v.4)] == ms
  {
    assert forall i | 0 <= i < |ms| :: KindOf(ms[i]) == LayoutOf(ms)[i];
    (ms[0].h, ms[1].h, ms[2].w, ms[3].h, ms[4].h)
  }

  function Ring12Values(ms: seq<Field>): (v: (bv32, bv16, bv16, bv32, bv16, bv16))
    requires LayoutOf(ms) == RING12_LAYOUT
    ensures [U32(v.0), U16(v.1), U16(v.2), U32(v.3), U16(v.4), U16(v.5)] == ms
  {
    assert forall i | 0 <= i < |ms| :: KindOf(ms[i]) == LayoutOf(ms)[i];
    (ms[0].w, ms[1].h, ms[2].h, ms[3].w, ms[4].h, ms[5].h)
  }

  function ControlValues(ms: seq<Field>): (v: (bv32, bv32, bv32, bv32, bv32))
    requires LayoutOf(ms) == CONTROL_LAYOUT
    ensures [U32(v.0), U32(v.1), U32(v.2), U32(v.3), U32(v.4)] == ms
  {
    assert forall i | 0 <= i < |ms| :: KindOf(ms[i]) == LayoutOf(ms)[i];
    (ms[0].w, ms[1].w, ms[2].w, ms[3].w, ms[4].w)
  }

  function RegisterValues(ms: seq<Field>): (v: (bv32, bv32, bv32, bv32, bv32, bv32))
    requires LayoutOf(ms) == REGISTER_LAYOUT
    ensures [U32(v.0), U32(v.1), U32(v.2), U32(v.3), U32(v.4), U32(v.5)] == ms
  {
    assert forall i | 0 <= i < |ms| :: KindOf(ms[i]) == LayoutOf(ms)[i];
    (ms[0].w, ms[1].w, ms[2].w, ms[3].w, ms[4].w, ms[5].w)
  }

  function LowSegmentValues(ms: seq<Field>): (v: (bv16, bv16, bv16, bv16, bv16, bv16))
    requires LayoutOf(ms) == LOW_SEGMENT_LAYOUT
    ensures [U16(v.0), U16(v.1), U16(v.2), U16(v.3), U16(v.4), U16(v.5)] == ms
  {
    assert forall i | 0 <= i < |ms| :: KindOf(ms[i]) == LayoutOf(ms)[i];
    (ms[0].h, ms[1].h, ms[2].h, ms[3].h, ms[4].h, ms[5].h)
  }

  function HighSegmentValues(ms: seq<Field>): (v: (bv16, bv16, bv16, bv16, bv16, bv16))
    requires LayoutOf(ms) == HIGH_SEGMENT_LAYOUT
    ensures [U16(v.0), U16(v.1), U16(v.2), U16(v.3), U16(v.4), U16(v.5)] == ms
  {
    assert forall i | 0 <= i < |ms| :: KindOf(ms[i]) == LayoutOf(ms)[i];
    (ms[0].h, ms[1].h, ms[2].h, ms[3].h, ms[4].h, ms[5].h)
  }

  function TailValues(ms: seq<Field>): (v: (bv16, bv16, bv16, bv16))
    requires LayoutOf(ms) == TAIL_LAYOUT
    ensures [U16(v.0), U16(v.1), U16(v.2), U16(v.3)] == ms
  {
    assert forall i | 0 <= i < |ms| :: KindOf(ms[i]) == LayoutOf(ms)[i];
    (ms[0].h, ms[1].h, ms[2].h, ms[3].h)
  }

  /** The TSS whose runs of members are the given ones. */
  function FromRuns(r1: seq<Field>, r2: seq<Field>, r3: seq<Field>, r4: seq<Field>, r5: seq<Field>, r6: seq<Field>, r7: seq<Field>): (tss: TssEntry)
    requires LayoutOf(r1) == RING0_LAYOUT
    requires LayoutOf(r2) == RING12_LAYOUT
    requires LayoutOf(r3) == CONTROL_LAYOUT
    requires LayoutOf(r4) == REGISTER_LAYOUT
    requires LayoutOf(r5) == LOW_SEGMENT_LAYOUT
    requires LayoutOf(r6) == HIGH_SEGMENT_LAYOUT
    requires LayoutOf(r7) == TAIL_LAYOUT
    ensures Ring0Members(tss) == r1
    ensures Ring12Members(tss) == r2
    ensures ControlMembers(tss) == r3
    ensures RegisterMembers(tss) == r4
    ensures LowSegmentMembers(tss) == r5
    ensures HighSegmentMembers(tss) == r6
    ensures TailMembers(tss) == r7
  {
    var v1 := Ring0Values(r1);
    var v2 := Ring12Values(r2);
    var v3 := ControlValues(r3);
    var v4 := RegisterValues(r4);
    var v5 := LowSegmentValues(r5);
    var v6 := HighSegmentValues(r6);
    var v7 := TailValues(r7);
    TssEntry(
      v1.0, v1.1, v1.2, v1.3, v1.4,
      v2.0, v2.1, v2.2, v2.3, v2.4, v2.5,
      v3.0, v3.1, v3.2, v3.3, v3.4,
      v4.0, v4.1, v4.2, v4.3, v4.4, v4.5,
      v5.0, v5.1, v5.2, v5.3, v5.4, v5.5,
      v6.0, v6.1, v6.2, v6.3, v6.4, v6.5,
      v7.0, v7.1, v7.2, v7.3)
  }

  /** A TSS is determined by its runs of members. */
  lemma MembersDetermine(a: TssEntry, b: TssEntry)
    requires Ring0Members(a) == Ring0Members(b)
    requires Ring12Members(a) == Ring12Members(b)
    requires ControlMembers(a) == ControlMembers(b)
    requires RegisterMembers(a) == RegisterMembers(b)
    requires LowSegmentMembers(a) == LowSegmentMembers(b)
    requires HighSegmentMembers(a) == HighSegmentMembers(b)
    requires TailMembers(a) == TailMembers(b)
    ensures a == b
  {
    assert forall i | 0 <= i < 5 :: Ring0Members(a)[i] == Ring0Members(b)[i];
    assert forall i | 0 <= i < 6 :: Ring12Members(a)[i] == Ring12Members(b)[i];
    assert forall i | 0 <= i < 5 :: ControlMembers(a)[i] == ControlMembers(b)[i];
    assert forall i | 0 <= i < 6 :: RegisterMembers(a)[i] == RegisterMembers(b)[i];
    assert forall i | 0 <= i < 6 :: LowSegmentMembers(a)[i] == LowSegmentMembers(b)[i];
    assert forall i | 0 <= i < 6 :: HighSegmentMembers(a)[i] == HighSegmentMembers(b)[i];
    assert forall i | 0 <= i < 4 :: TailMembers(a)[i] == TailMembers(b)[i];
  }

  /** Equal member lists come from equal TSS values. */
  lemma FieldsInjective(a: TssEntry, b: TssEntry)
    requires Fields(a) == Fields(b)
    ensures a == b
  {
    var a1, a2, a3, a4 := Ring0Members(a), Ring12Members(a), ControlMembers(a), RegisterMembers(a);
    var a5, a6, a7 := LowSegmentMembers(a), HighSegmentMembers(a), TailMembers(a);
    var b1, b2, b3, b4 := Ring0Members(b), Ring12Members(b), ControlMembers(b), RegisterMembers(b);
    var b5, b6, b7 := LowSegmentMembers(b), HighSegmentMembers(b), TailMembers(b);
    AppendCancel(a1 + a2 + a3 + a4 + a5 + a6, a7, b1 + b2 + b3 + b4 + b5 + b6, b7);
    AppendCancel(a1 + a2 + a3 + a4 + a5, a6, b1 + b2 + b3 + b4 + b5, b6);
    AppendCancel(a1 + a2 + a3 + a4, a5, b1 + b2 + b3 + b4, b5);
    AppendCancel(a1 + a2 + a3, a4, b1 + b2 + b3, b4);
    AppendCancel(a1 + a2, a3, b1 + b2, b3);
    AppendCancel(a1, a2, b1, b2);
    MembersDetermine(a, b);
  }

  /** The sizes of the runs, and the offsets within them that are asked about. */
  lemma RunSizes()
    ensures var w1 := Widths(RING0_LAYOUT);
      Offset(w1, 2) == 4 && Offset(w1, 3) == 8 && Offset(w1, 4) == 10 && Sum(w1) == 12
    ensures Sum(Widths(RING12_LAYOUT)) == 16
    ensures Offset(Widths(CONTROL_LAYOUT), 1) == 4 && Sum(Widths(CONTROL_LAYOUT)) == 20
    ensures Sum(Widths(REGISTER_LAYOUT)) == 24
    ensures Sum(Widths(LOW_SEGMENT_LAYOUT)) == 12 && Sum(Widths(HIGH_SEGMENT_LAYOUT)) == 12
    ensures Offset(Widths(TAIL_LAYOUT), 3) == 6 && Sum(Widths(TAIL_LAYOUT)) == 8
  {
    var w1 := Widths(RING0_LAYOUT);
    assert Offset(w1, 1) == 2 && Offset(w1, 2) == 4 && Offset(w1, 3) == 8 && Offset(w1, 4) == 10;
    assert Offset(w1, 5) == 12;
    var w2 := Widths(RING12_LAYOUT);
    assert Offset(w2, 1) == 4 && Offset(w2, 2) == 6 && Offset(w2, 3) == 8 && Offset(w2, 4) == 12;
    assert Offset(w2, 5) == 14 && Offset(w2, 6) == 16;
    var w3 := Widths(CONTROL_LAYOUT);
    assert Offset(w3, 1) == 4 && Offset(w3, 2) == 8 && Offset(w3, 3) == 12 && Offset(w3, 4) == 16;
    assert Offset(w3, 5) == 20;
    var w4 := Widths(REGISTER_LAYOUT);
    assert Offset(w4, 1) == 4 && Offset(w4, 2) == 8 && Offset(w4, 3) == 12 && Offset(w4, 4) == 16;
    assert Offset(w4, 5) == 20 && Offset(w4, 6) == 24;
    var w5 := Widths(LOW_SEGMENT_LAYOUT);
    assert Offset(w5, 1) == 2 && Offset(w5, 2) == 4 && Offset(w5, 3) == 6 && Offset(w5, 4) == 8;
    assert Offset(w5, 5) == 10 && Offset(w5, 6) == 12;
    var w6 := Widths(HIGH_SEGMENT_LAYOUT);
    assert Offset(w6, 1) == 2 && Offset(w6, 2) == 4 && Offset(w6, 3) == 6 && Offset(w6, 4) == 8;
    assert Offset(w6, 5) == 10 && Offset(w6, 6) == 12;
    var w7 := Widths(TAIL_LAYOUT);
    assert Offset(w7, 1) == 2 && Offset(w7, 2) == 4 && Offset(w7, 3) == 6 && Offset(w7, 4) == 8;
  }

  /**
   * `offsetof` the members the processor reads on a privilege switch and
   * `sizeof(TSSEntry)`: esp0 at 4, ss0 at 8, cr3 at 28, iomap_base at 102,
   * 104 bytes in all.
   */
  lemma TssOffsets()
    ensures var ws := Widths(TSS_LAYOUT);
      Offset(ws, ESP0_MEMBER) == 4 && Offset(ws, SS0_MEMBER) == 8 &&
      Offset(ws, SS0_MEMBER + 1) == 10 &&
      Offset(ws, CR3_MEMBER) == 28 && Offset(ws, CR3_MEMBER + 1) == 32 &&
      Offset(ws, IOMAP_BASE_MEMBER) == 102 && TSS_SIZE == 104
  {
    var l1, l2, l3, l4 := RING0_LAYOUT, RING12_LAYOUT, CONTROL_LAYOUT, REGISTER_LAYOUT;
    var l5, l6, l7 := LOW_SEGMENT_LAYOUT, HIGH_SEGMENT_LAYOUT, TAIL_LAYOUT;
    var w1, w2, w3, w4 := Widths(l1), Widths(l2), Widths(l3), Widths(l4);
    var w5, w6, w7 := Widths(l5), Widths(l6), Widths(l7);
    RunSizes();
    WidthsAppend(l1, l2);
    WidthsAppend(l1 + l2, l3);
    WidthsAppend(l1 + l2 + l3, l4);
    WidthsAppend(l1 + l2 + l3 + l4, l5);
    WidthsAppend(l1 + l2 + l3 + l4 + l5, l6);
    WidthsAppend(l1 + l2 + l3 + l4 + l5 + l6, l7);
    var p2 := w1 + w2;
    var p3 := p2 + w3;
    var p6 := p3 + w4 + w5 + w6;
    assert Widths(TSS_LAYOUT) == p6 + w7;
    OffsetPrefix(w1, w2);
    OffsetPrefix(p2, w3);
    OffsetPrefix(p3, w4);
    OffsetPrefix(p3 + w4, w5);
    OffsetPrefix(p3 + w4 + w5, w6);
    OffsetPrefix(p6, w7);
    SumAppend(w1, w2);
    OffsetAppend(p2, w3, 0);
    OffsetAppend(p2, w3, 1);
    SumAppend(p2, w3);
    SumAppend(p3, w4);
    SumAppend(p3 + w4, w5);
    SumAppend(p3 + w4 + w5, w6);
    OffsetAppend(p6, w7, 3);
    SumAppend(p6, w7);
  }

  /** The TSS as the processor sees it in memory. */
  function Serialize(tss: TssEntry): (b: seq<bv8>)
    ensures |b| == TSS_SIZE
  {
    Flatten(Fields(tss))
  }

  /** The bytes are the runs' bytes one after the other. */
  lemma SerializeRuns(tss: TssEntry)
    ensures Serialize(tss) ==
      Flatten(Ring0Members(tss)) + Flatten(Ring12Members(tss)) + Flatten(ControlMembers(tss)) +
      Flatten(RegisterMembers(tss)) + Flatten(LowSegmentMembers(tss)) +
      Flatten(HighSegmentMembers(tss)) + Flatten(TailMembers(tss))
  {
    var r1, r2, r3, r4 := Ring0Members(tss), Ring12Members(tss), ControlMembers(tss), RegisterMembers(tss);
    var r5, r6, r7 := LowSegmentMembers(tss), HighSegmentMembers(tss), TailMembers(tss);
    FlattenAppend(r1 + r2 + r3 + r4 + r5 + r6, r7);
    FlattenAppend(r1 + r2 + r3 + r4 + r5, r6);
    FlattenAppend(r1 + r2 + r3 + r4, r5);
    FlattenAppend(r1 + r2 + r3, r4);
    FlattenAppend(r1 + r2, r3);
    FlattenAppend(r1, r2);
  }

  /** Different TSS values have different bytes. */
  lemma SerializeInjective(a: TssEntry, b: TssEntry)
    requires Serialize(a) == Serialize(b)
    ensures a == b
  {
    UnflattenFlatten(Fields(a));
    UnflattenFlatten(Fields(b));
    FieldsInjective(a, b);
  }

  /** Reads a TSS back from its bytes: any 104 bytes are some TSS's bytes. */
  function Parse(b: seq<bv8>): (tss: TssEntry)
    requires |b| == TSS_SIZE
    ensures Serialize(tss) == b
  {
    TssOffsets();
    RunSizes();
    var tss := FromRuns(
      Unflatten(RING0_LAYOUT, b[..12]), Unflatten(RING12_LAYOUT, b[12..28]),
      Unflatten(CONTROL_LAYOUT, b[28..48]), Unflatten(REGISTER_LAYOUT, b[48..72]),
      Unflatten(LOW_SEGMENT_LAYOUT, b[72..84]), Unflatten(HIGH_SEGMENT_LAYOUT, b[84..96]),
      Unflatten(TAIL_LAYOUT, b[96..]));
    SerializeRuns(tss);
    SliceJoin(b, 12, 28);
    SliceJoin(b, 28, 48);
    SliceJoin(b, 48, 72);
    SliceJoin(b, 72, 84);
    SliceJoin(b, 84, 96);
    SliceJoin(b, 96, 104);
    tss
  }

  lemma ParseSerialize(tss: TssEntry)
    ensures Parse(Serialize(tss)) == tss
  {
    SerializeInjective(Parse(Serialize(tss)), tss);
  }

  /**
   * The ring-0 stack pointer and segment, the page-directory base and the
   * I/O map base sit at the bytes the processor reads them from.
   */
  lemma MemberBytes(tss: TssEntry)
    ensures |Serialize(tss)| == 104
    ensures Serialize(tss)[4..8] == Bytes(U32(tss.esp0))
    ensures Serialize(tss)[8..10] == Bytes(U16(tss.ss0))
    ensures Serialize(tss)[28..32] == Bytes(U32(tss.cr3))
    ensures Serialize(tss)[102..104] == Bytes(U16(tss.iomapBase))
  {
    var ms := Fields(tss);
    TssOffsets();
    FieldAt(ms, TSS_LAYOUT, ESP0_MEMBER);
    FieldAt(ms, TSS_LAYOUT, SS0_MEMBER);
    FieldAt(ms, TSS_LAYOUT, CR3_MEMBER);
    FieldAt(ms, TSS_LAYOUT, IOMAP_BASE_MEMBER);
  }

  /**
   * `tss_entry`'s static initialiser: the kernel data selector as ring-0
   * stack segment, a zero ring-0 stack pointer, the kernel code and data
   * selectors with RPL 3 in the segment members; everything else zero.
   */
  const INITIAL_TSS: TssEntry := TssEntry(
    0, 0,
    0,
    KERNEL_DS_OFFSET, 0,
    0,
    0, 0,
    0,
    0, 0,
    0,
    0,
    0,
    0, 0, 0, 0,
    0,
    0,
    0,
    0,
    KERNEL_DS_OFFSET | 0x3, 0,
    KERNEL_CS_OFFSET | 0x3, 0,
    KERNEL_DS_OFFSET | 0x3, 0,
    KERNEL_DS_OFFSET | 0x3, 0,
    KERNEL_DS_OFFSET | 0x3, 0,
    KERNEL_DS_OFFSET | 0x3, 0,
    0, 0,
    0, 0)

  predicate IsZero(f: Field)
  {
    match f
    case U8(b) => b == 0
    case U16(h) => h == 0
    case U32(w) => w == 0
  }

  // Positions of the members the initialiser sets.
  const ES_MEMBER: nat := 22
  const CS_MEMBER: nat := 24
  const SS_MEMBER: nat := 26
  const DS_MEMBER: nat := 28
  const FS_MEMBER: nat := 30
  const GS_MEMBER: nat := 32

  /**
   * The initial values: ss0 = 0x10 (kernel data), esp0 = 0, cs = 0x0B
   * (kernel code with RPL 3), ds = ss = es = fs = gs = 0x13 (kernel data
   * with RPL 3), and every other member, reserved ones included, zero.
   */
  lemma InitialTssValues()
    ensures INITIAL_TSS.ss0 == 0x10 && INITIAL_TSS.esp0 == 0
    ensures INITIAL_TSS.cs == 0x0B
    ensures INITIAL_TSS.ds == 0x13 && INITIAL_TSS.ss == 0x13 && INITIAL_TSS.es == 0x13
    ensures INITIAL_TSS.fs == 0x13 && INITIAL_TSS.gs == 0x13
    ensures SelectorIndex(INITIAL_TSS.ss0) == KERNEL_DS_INDEX && SelectorRpl(INITIAL_TSS.ss0) == 0
    ensures SelectorIndex(INITIAL_TSS.cs) == KERNEL_CS_INDEX && SelectorRpl(INITIAL_TSS.cs) == 3
    ensures forall i | 0 <= i < |TSS_LAYOUT| ::
      i !in {SS0_MEMBER, ES_MEMBER, CS_MEMBER, SS_MEMBER, DS_MEMBER, FS_MEMBER, GS_MEMBER} ==>
        IsZero(Fields(INITIAL_TSS)[i])
  {
  }
}
