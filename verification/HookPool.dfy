// How the hook memory is cut into slots: the sizes that the declarations give on a
// 64-bit machine, and where the words of a copied transit function lie.
module HookPool {
  import opened Hook

  // TRANSIT_INST_NUM, HOOK_CHAIN_NUM and FP_HOOK_CHAIN_NUM
  const TRANSIT_NUM := 0x60
  const CHAIN_NUM := 16
  const FP_CHAIN_NUM := 32

  function Padded(n: nat, align: nat): nat
    requires align > 0
  {
    (n + align - 1) / align * align
  }

  // sizeof(hook_t): four addresses, two counts and three arrays of words
  function HookSize(): nat {
    8 * 4 + 4 * 2 + Padded(4 * TRAMPOLINE_MAX, 8) * 2 + Padded(4 * RELOCATE_MAX, 8)
  }

  // The offset of transit in hook_chain_t and in fp_hook_chain_t: behind the hook, the
  // mark, a byte of state for each item, and three arrays of pointers.
  function TransitOffset(hookSize: nat, items: nat): nat {
    Padded(hookSize + 4 + items, 8) + 3 * (8 * items)
  }

  function ChainSize(hookSize: nat, items: nat): nat {
    TransitOffset(hookSize, items) + 4 * TRANSIT_NUM
  }

  const FP_HOOK_SIZE: nat := 24
  // using, type and addr stand before the chain.
  const SLOT_HEAD: nat := 16

  // sizeof(hook_mem_warp_t): the union has the size of its largest member.
  function SlotSize(): nat {
    var fp, inl := ChainSize(FP_HOOK_SIZE, FP_CHAIN_NUM), ChainSize(HookSize(), CHAIN_NUM);
    Padded(SLOT_HEAD + if fp > inl then fp else inl, 16)
  }

  function SlotAt(n: nat): nat {
    n * SlotSize()
  }

  // Where word j of the transit function of slot n is copied to.
  function FpWordAt(n: nat, j: nat): nat {
    SlotAt(n) + SLOT_HEAD + TransitOffset(FP_HOOK_SIZE, FP_CHAIN_NUM) + 4 * j
  }

  function InlineWordAt(n: nat, j: nat): nat {
    SlotAt(n) + SLOT_HEAD + TransitOffset(HookSize(), CHAIN_NUM) + 4 * j
  }

  // The transit code of a function-pointer hook ends with its slot: the word behind it
  // is the field using of the next slot.
  lemma FpWordsEndSlot(n: nat, j: nat)
    ensures FpWordAt(n, j) + 4 <= SlotAt(n + 1) <==> j < TRANSIT_NUM
    ensures FpWordAt(n, j) == SlotAt(n + 1) <==> j == TRANSIT_NUM
  {
    Sizes();
    NextSlot(n);
  }

  // That of an inline hook has room behind it: up to 144 words stay in the slot, behind
  // every field of the chain.
  lemma InlineWordsStay(n: nat, j: nat)
    ensures InlineWordAt(n, j) + 4 <= SlotAt(n + 1) <==> j < 144
    ensures j >= TRANSIT_NUM ==> InlineWordAt(n, j) >= SlotAt(n) + SLOT_HEAD + ChainSize(HookSize(), CHAIN_NUM)
  {
    Sizes();
    NextSlot(n);
  }

  lemma Sizes()
    ensures HookSize() == 232 && SlotSize() == 1232
    ensures TransitOffset(FP_HOOK_SIZE, FP_CHAIN_NUM) == 832 && TransitOffset(HookSize(), CHAIN_NUM) == 640
    ensures SLOT_HEAD == 16 && TRANSIT_NUM == 96
  {
  }

  lemma NextSlot(n: nat)
    ensures SlotAt(n + 1) == SlotAt(n) + 1232
  {
    Sizes();
  }
}
