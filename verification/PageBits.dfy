/** The page table of the replacement simulator (memreplace.c): one byte for each of 16 pages. */
module PageBits {
  const NB_PAGES := 16

  const PAGE_NB_MASK: bv8 := 0xF0
  const REF_BIT_MASK: bv8 := 0x04
  const SWAP_BIT_MASK: bv8 := 0x02
  const VALID_BIT_MASK: bv8 := 0x01

  predicate Valid(e: bv8) { e & VALID_BIT_MASK != 0 }

  predicate Swapped(e: bv8) { e & SWAP_BIT_MASK != 0 }

  predicate Referenced(e: bv8) { e & REF_BIT_MASK != 0 }

  /** Out to swap: the two last lines of both replacement functions. */
  function Evicted(e: bv8): (r: bv8)
    ensures !Valid(r) && Swapped(r) && (Referenced(r) <==> Referenced(e)) && r & PAGE_NB_MASK == e & PAGE_NB_MASK
  {
    (e & !VALID_BIT_MASK) | SWAP_BIT_MASK
  }

  function SwapCleared(e: bv8): (r: bv8)
    ensures !Swapped(r) && (Valid(r) <==> Valid(e)) && (Referenced(r) <==> Referenced(e))
    ensures r & PAGE_NB_MASK == e & PAGE_NB_MASK
  {
    e & !SWAP_BIT_MASK
  }

  function MadeValid(e: bv8): (r: bv8)
    ensures Valid(r) && (Swapped(r) <==> Swapped(e)) && (Referenced(r) <==> Referenced(e))
    ensures r & PAGE_NB_MASK == e & PAGE_NB_MASK
  {
    e | VALID_BIT_MASK
  }

  function RefSet(e: bv8): (r: bv8)
    ensures Referenced(r) && (Valid(r) <==> Valid(e)) && (Swapped(r) <==> Swapped(e))
    ensures r & PAGE_NB_MASK == e & PAGE_NB_MASK
  {
    e | REF_BIT_MASK
  }

  function RefCleared(e: bv8): (r: bv8)
    ensures !Referenced(r) && (Valid(r) <==> Valid(e)) && (Swapped(r) <==> Swapped(e))
    ensures r & PAGE_NB_MASK == e & PAGE_NB_MASK
  {
    e & !REF_BIT_MASK
  }

  function SwapSet(e: bv8): (r: bv8)
    ensures Swapped(r) && (Valid(r) <==> Valid(e)) && (Referenced(r) <==> Referenced(e))
    ensures r & PAGE_NB_MASK == e & PAGE_NB_MASK
  {
    e | SWAP_BIT_MASK
  }

  /** Page number i in the upper four bits. */
  function PageNumber(i: nat): (r: bv8)
    requires i < NB_PAGES
    ensures r & PAGE_NB_MASK == r && !Valid(r) && !Swapped(r) && !Referenced(r) && r >> 4 == i as bv8
  {
    [0x00, 0x10, 0x20, 0x30, 0x40, 0x50, 0x60, 0x70, 0x80, 0x90, 0xA0, 0xB0, 0xC0, 0xD0, 0xE0, 0xF0][i]
  }

  /** After init_page_table: pages 0, 1 and 2 are resident and page 3 is in swap. */
  ghost predicate Initial(t: seq<bv8>) {
    && |t| == NB_PAGES
    && forall i :: 0 <= i < NB_PAGES ==>
         && t[i] & PAGE_NB_MASK == PageNumber(i) && !Referenced(t[i])
         && (Valid(t[i]) <==> i <= 2) && (Swapped(t[i]) <==> i == 3)
  }

  method InitPageTable(page_table: array<bv8>)
    requires page_table.Length == NB_PAGES && forall i :: 0 <= i < NB_PAGES ==> page_table[i] == 0
    modifies page_table
    ensures Initial(page_table[..])
  {
    var i := 0;
    while i < 16
      invariant 0 <= i <= 16
      invariant forall k :: 0 <= k < i ==> page_table[k] == PageNumber(k)
      invariant forall k :: i <= k < 16 ==> page_table[k] == 0
    {
      page_table[i] := page_table[i] | PageNumber(i);
      i := i + 1;
    }
    FirstBits(page_table[..]);
    page_table[0] := MadeValid(page_table[0]);
    page_table[1] := MadeValid(page_table[1]);
    page_table[2] := MadeValid(page_table[2]);
    page_table[3] := SwapSet(page_table[3]);
  }

  lemma FirstBits(t: seq<bv8>)
    requires |t| == NB_PAGES && forall k :: 0 <= k < NB_PAGES ==> t[k] == PageNumber(k)
    ensures Initial(t[0 := MadeValid(t[0])][1 := MadeValid(t[1])][2 := MadeValid(t[2])][3 := SwapSet(t[3])])
  {
  }
}
