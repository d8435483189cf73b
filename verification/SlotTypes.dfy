/** What the slot table, its callers and its lemmas share (indirection.h, indirection_impl.h). */
module SlotTypes {
  import opened Wrappers

  type Slot = nat

  /** A table entry: NULL, the reservation mark `(void *) -1`, or the address of an object. */
  datatype Address = Null | Reserved | Object(id: nat)

  /** One page of 4096 bytes holds this many pointers. */
  const ADDR_PER_PAGE: nat := 512

  /** Line 75 compares with `((size_t) 1 << sizeof(slot_t)) - 1`, and `slot_t` has four bytes. */
  const SLOT_LIMIT: nat := 15

  /** `size_t` is 64 bits wide. */
  const SIZE_MODULUS: nat := 0x1_0000_0000_0000_0000

  /**
    What an allocation and a release that nobody interrupts do to the free list and the top
    of the table, when memory and pages suffice.  `limit` is what line 75 compares with; as
    written it is SLOT_LIMIT.
   */
  datatype Slots = Slots(freeList: seq<Slot>, numAddresses: nat, limit: nat)

  /** `allocateSlot`; 0 when it fails. */
  function AllocateSlot(s: Slots): (Slots, Slot) {
    if s.numAddresses == s.limit then (s, 0)
    else if s.freeList != [] then (s.(freeList := s.freeList[1..]), s.freeList[0])
    else (s.(numAddresses := s.numAddresses + 1), s.numAddresses)
  }

  function FreeSlot(s: Slots, slot: Slot): Slots {
    if slot == 0 then s
    else if slot + 1 == s.numAddresses then s.(numAddresses := s.numAddresses - 1)
    else s.(freeList := [slot] + s.freeList)
  }
}
