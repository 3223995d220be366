/**
 * The fixed GDT slot numbers shared by the kernel and the segment selectors
 * derived from them.
 *
 * A selector (Intel SDM Vol. 3A, section 3.4.2, Figure 3-6) is a 16-bit
 * value: bits 3-15 hold the descriptor's index in its table, bit 2 the table
 * indicator (0 = GDT) and bits 0-1 the requested privilege level.
 */
module LocalConfig {

  const KERNEL_CS_INDEX: bv16 := 1
  const KERNEL_DS_INDEX: bv16 := 2
  const USER_CS_INDEX: bv16 := 3
  const USER_DS_INDEX: bv16 := 4
  const TSS_INDEX: bv16 := 5

  /**
   * The `*_OFFSET` macros, spelled as the header spells them: the product
   * is parenthesised and `| 0` trails it unparenthesised.
   */
  const KERNEL_CS_OFFSET: bv16 := (KERNEL_CS_INDEX * 8) | 0
  const KERNEL_DS_OFFSET: bv16 := (KERNEL_DS_INDEX * 8) | 0
  const USER_CS_OFFSET: bv16 := (USER_CS_INDEX * 8) | 0
  const USER_DS_OFFSET: bv16 := (USER_DS_INDEX * 8) | 0
  const TSS_OFFSET: bv16 := (TSS_INDEX * 8) | 0

  /** The fields of a selector. */
  function SelectorIndex(s: bv16): bv16 { s >> 3 }
  function SelectorTableIndicator(s: bv16): bv16 { (s >> 2) & 1 }
  function SelectorRpl(s: bv16): bv16 { s & 3 }

  /**
   * The selector formula `index * 8 | rpl` for a GDT slot. A 13-bit index
   * and a 2-bit RPL are exactly what the selector format can carry, and
   * each can be read back from the result.
   */
  function Selector(index: bv16, rpl: bv16): (s: bv16)
    requires index < 0x2000 && rpl < 4
    ensures SelectorIndex(s) == index
    ensures SelectorRpl(s) == rpl
    ensures SelectorTableIndicator(s) == 0
  {
    (index * 8) | rpl
  }

  /** Two selectors of the GDT agree exactly when index and RPL agree. */
  lemma SelectorInjective(i1: bv16, r1: bv16, i2: bv16, r2: bv16)
    requires i1 < 0x2000 && r1 < 4 && i2 < 0x2000 && r2 < 4
    ensures Selector(i1, r1) == Selector(i2, r2) <==> i1 == i2 && r1 == r2
  {
    if Selector(i1, r1) == Selector(i2, r2) {
      assert i1 == SelectorIndex(Selector(i1, r1)) == SelectorIndex(Selector(i2, r2)) == i2;
      assert r1 == SelectorRpl(Selector(i1, r1)) == SelectorRpl(Selector(i2, r2)) == r2;
    }
  }

  /**
   * OR-ing a ring-0 selector with an RPL gives the selector with that RPL
   * and the same index: this is what `X_OFFSET | 0x3` computes, whatever
   * the grouping of the macro's unparenthesised `| 0` tail.
   */
  lemma WithRpl(index: bv16, rpl: bv16)
    requires index < 0x2000 && rpl < 4
    ensures Selector(index, 0) | rpl == Selector(index, rpl)
    ensures ((index * 8) | 0) | rpl == (index * 8) | (0 | rpl)
  {
  }

  /** The slots: distinct, none of them the null slot 0. */
  lemma IndicesDistinct()
    ensures KERNEL_CS_INDEX != 0 && KERNEL_DS_INDEX != 0 && USER_CS_INDEX != 0
    ensures USER_DS_INDEX != 0 && TSS_INDEX != 0
    ensures KERNEL_CS_INDEX != KERNEL_DS_INDEX && KERNEL_CS_INDEX != USER_CS_INDEX
    ensures KERNEL_CS_INDEX != USER_DS_INDEX && KERNEL_CS_INDEX != TSS_INDEX
    ensures KERNEL_DS_INDEX != USER_CS_INDEX && KERNEL_DS_INDEX != USER_DS_INDEX
    ensures KERNEL_DS_INDEX != TSS_INDEX && USER_CS_INDEX != USER_DS_INDEX
    ensures USER_CS_INDEX != TSS_INDEX && USER_DS_INDEX != TSS_INDEX
  {
  }

  /**
   * Each offset is the ring-0 GDT selector of its slot, so `offset >> 3`
   * gives the slot back and the RPL and TI bits are clear; the values are
   * 0x08, 0x10, 0x18, 0x20 and 0x28.
   */
  lemma OffsetsAreRing0Selectors()
    ensures KERNEL_CS_OFFSET == Selector(KERNEL_CS_INDEX, 0) == 0x08
    ensures KERNEL_DS_OFFSET == Selector(KERNEL_DS_INDEX, 0) == 0x10
    ensures USER_CS_OFFSET == Selector(USER_CS_INDEX, 0) == 0x18
    ensures USER_DS_OFFSET == Selector(USER_DS_INDEX, 0) == 0x20
    ensures TSS_OFFSET == Selector(TSS_INDEX, 0) == 0x28
    ensures KERNEL_CS_OFFSET & 7 == 0 && KERNEL_DS_OFFSET & 7 == 0 && USER_CS_OFFSET & 7 == 0
    ensures USER_DS_OFFSET & 7 == 0 && TSS_OFFSET & 7 == 0
    ensures SelectorIndex(KERNEL_CS_OFFSET) == KERNEL_CS_INDEX
    ensures SelectorIndex(KERNEL_DS_OFFSET) == KERNEL_DS_INDEX
    ensures SelectorIndex(USER_CS_OFFSET) == USER_CS_INDEX
    ensures SelectorIndex(USER_DS_OFFSET) == USER_DS_INDEX
    ensures SelectorIndex(TSS_OFFSET) == TSS_INDEX
  {
  }

  /** Ring-3 variants used by the TSS presets, e.g. kernel DS gives 0x13. */
  lemma Ring3Variants()
    ensures KERNEL_CS_OFFSET | 3 == Selector(KERNEL_CS_INDEX, 3) == 0x0B
    ensures KERNEL_DS_OFFSET | 3 == Selector(KERNEL_DS_INDEX, 3) == 0x13
    ensures USER_CS_OFFSET | 3 == Selector(USER_CS_INDEX, 3) == 0x1B
    ensures USER_DS_OFFSET | 3 == Selector(USER_DS_INDEX, 3) == 0x23
  {
  }
}
