/** `update_physical_offset` and `update_virtual_offset`: where a file offset
    or a virtual address of the host executable lands once preprocessing has
    made room after the program header table and put a copy of the dynamic
    relocation table in front of the section header table. */
module AddressTranslation {
  import opened ElfTypes

  /** One coordinate space's view of the shift: where the relocation table
      was, where its copy went, its size, where the inserted header room
      begins and how large that room is. */
  datatype Shift = Shift(originalRela: nat, newRela: nat, relaSize: nat, shiftStart: nat, shiftBytes: nat)

  function PhysicalShift(md: Metadata): Shift
  {
    Shift(md.originalRelaPaddr, md.newRelaPaddr, md.relaSize, md.phPhysicalShiftStart, md.phShiftBytes)
  }

  function VirtualShift(md: Metadata): Shift
  {
    Shift(md.originalRelaVaddr, md.newRelaVaddr, md.relaSize, md.phVirtualShiftStart, md.phShiftBytes)
  }

  predicate InMovedTable(g: Shift, x: nat)
  {
    g.originalRela <= x < g.originalRela + g.relaSize
  }

  /** The translation both source functions share, on the fields of one space. */
  function Translate(g: Shift, x: nat): nat
  {
    if InMovedTable(g, x) then
      g.newRela + (x - g.originalRela) + g.shiftBytes
    else
      var shifted := if g.shiftStart <= x then x + g.shiftBytes else x;
      if g.newRela <= x then shifted + g.relaSize else shifted
  }

  function UpdatePhysicalOffset(md: Metadata, offset: nat): (r: nat)
    ensures InMovedTable(PhysicalShift(md), offset) ==>
              r - (md.newRelaPaddr + md.phShiftBytes) == offset - md.originalRelaPaddr
    ensures !InMovedTable(PhysicalShift(md), offset) ==>
              offset <= r <= offset + md.phShiftBytes + md.relaSize
  {
    Translate(PhysicalShift(md), offset)
  }

  function UpdateVirtualOffset(md: Metadata, offset: nat): (r: nat)
    ensures InMovedTable(VirtualShift(md), offset) ==>
              r - (md.newRelaVaddr + md.phShiftBytes) == offset - md.originalRelaVaddr
    ensures !InMovedTable(VirtualShift(md), offset) ==>
              offset <= r <= offset + md.phShiftBytes + md.relaSize
  {
    Translate(VirtualShift(md), offset)
  }

  /** Inside the moved table a coordinate keeps its distance from the table
      start, measured now from the copy (which itself sits after the room). */
  lemma {:induction false} MovedTableLandsInCopy(g: Shift, x: nat)
    requires InMovedTable(g, x)
    ensures g.newRela + g.shiftBytes <= Translate(g, x) < g.newRela + g.shiftBytes + g.relaSize
    ensures Translate(g, x) == g.newRela + (x - g.originalRela) + g.shiftBytes
  {
  }

  /** Outside the moved table: unchanged below both thresholds, plus the room
      from the header-table end on, plus the table size from the copy on. */
  lemma {:induction false} ShiftOutsideMovedTable(g: Shift, x: nat)
    requires !InMovedTable(g, x)
    ensures x <= Translate(g, x)
    ensures Translate(g, x) == x
              + (if g.shiftStart <= x then g.shiftBytes else 0)
              + (if g.newRela <= x then g.relaSize else 0)
  {
  }

  /** The geometry preprocessing produces: the original table ends before the
      place of its copy, and the header room starts before that place too. */
  predicate WellFormed(g: Shift)
  {
    g.originalRela + g.relaSize <= g.newRela && g.shiftStart <= g.newRela
  }

  /** Which of the four pieces of the translation a coordinate falls in. */
  function Region(g: Shift, x: nat): nat
  {
    if InMovedTable(g, x) then 2
    else if g.newRela <= x then 3
    else if g.shiftStart <= x then 1
    else 0
  }

  /** The images of the four pieces are ordered intervals. */
  lemma {:induction false} RegionBounds(g: Shift, x: nat)
    requires WellFormed(g)
    ensures Region(g, x) == 0 ==> Translate(g, x) < g.shiftStart
    ensures Region(g, x) == 1 ==> g.shiftStart + g.shiftBytes <= Translate(g, x) < g.newRela + g.shiftBytes
    ensures Region(g, x) == 2 ==> g.newRela + g.shiftBytes <= Translate(g, x) < g.newRela + g.shiftBytes + g.relaSize
    ensures Region(g, x) == 3 ==> g.newRela + g.shiftBytes + g.relaSize <= Translate(g, x)
  {
  }

  /** Two distinct coordinates never land on the same translated coordinate. */
  lemma {:induction false} TranslateInjective(g: Shift, x: nat, y: nat)
    requires WellFormed(g) && x != y
    ensures Translate(g, x) != Translate(g, y)
  {
    RegionBounds(g, x);
    RegionBounds(g, y);
  }

  /** Within one piece the translation is order preserving. */
  lemma {:induction false} TranslateMonotoneWithinRegion(g: Shift, x: nat, y: nat)
    requires x <= y && Region(g, x) == Region(g, y)
    ensures Translate(g, x) <= Translate(g, y)
  {
  }

  /** Across pieces it is not: the first byte of the moved table is sent past
      a later coordinate that still lies before the copy. */
  lemma {:induction false} TranslateNotMonotone()
    ensures var g := Shift(0x100, 0x1000, 0x40, 0x80, 0x40);
            0x100 < 0x180 && Translate(g, 0x100) > Translate(g, 0x180)
  {
  }
}
