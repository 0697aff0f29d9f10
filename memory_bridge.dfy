/**
 * Bounds-checked access to a guest's linear memory and the unpacking of the
 * 64-bit result word of a `signal` call. Both loader revisions carry an
 * identical copy of these helpers; they are defined once here.
 */
module MemoryBridge {
  import opened Wrappers

  /** A writable window `[lo, hi)` of the memory. */
  datatype Region = Region(lo: nat, hi: nat)

  /** `mem_slice`: the bytes `[lower, upper)`, or the shortfall when `upper`
      lies beyond the end of the memory. The source asserts `lower <= upper`. */
  function MemSlice(mem: seq<bv8>, lower: nat, upper: nat): (r: Result<seq<bv8>, nat>)
    requires lower <= upper
    ensures r.Ok? <==> upper <= |mem|
    ensures r.Ok? ==> (|r.value| == upper - lower &&
                       forall i :: 0 <= i < upper - lower ==> r.value[i] == mem[lower + i])
    ensures r.Err? ==> r.error > 0 && |mem| + r.error == upper
  {
    if upper > |mem| then Err(upper - |mem|) else Ok(mem[lower..upper])
  }

  /** `mem_slice_mut` as the source writes it: the window `[lower, max - lower)`.
      When `max - lower < lower <= max` the source's slice index panics; that
      input is excluded here. */
  function MemSliceMutAsWritten(mem: seq<bv8>, lower: nat): (r: Result<Region, nat>)
    requires lower > |mem| || lower <= |mem| - lower
    ensures r.Ok? <==> lower <= |mem|
    ensures r.Ok? ==> r.value.lo == lower && r.value.hi == |mem| - lower && r.value.lo <= r.value.hi
    ensures r.Err? ==> |mem| + r.error == lower
  {
    if lower > |mem| then Err(lower - |mem|) else Ok(Region(lower, |mem| - lower))
  }

  /** `mem_slice_mut` as intended: everything from `lower` to the end. */
  function MemSliceMut(mem: seq<bv8>, lower: nat): (r: Result<Region, nat>)
    ensures r.Ok? <==> lower <= |mem|
    ensures r.Ok? ==> r.value.lo == lower && r.value.hi == |mem|
    ensures r.Err? ==> r.error > 0 && |mem| + r.error == lower
  {
    if lower > |mem| then Err(lower - |mem|) else Ok(Region(lower, |mem|))
  }

  /** At offset 0, the only offset the current loader uses, both versions give
      the whole memory. */
  lemma MemSliceMutAtZero(mem: seq<bv8>)
    ensures MemSliceMutAsWritten(mem, 0) == MemSliceMut(mem, 0) == Ok(Region(0, |mem|))
  {
  }

  /** At any other offset the written version loses `lower` bytes of the window,
      and for `max - lower < lower <= max` it has no valid window at all. */
  lemma MemSliceMutAsWrittenLosesBytes(mem: seq<bv8>, lower: nat)
    requires 0 < lower <= |mem| - lower
    ensures MemSliceMutAsWritten(mem, lower).value.hi + lower == MemSliceMut(mem, lower).value.hi
  {
  }

  /** Concrete witness: a guest's smallest memory, one 64 KiB page, with a
      40000-byte request at offset 0 and the packet window requested at
      offset 40000. The written slice would be `[40000..25536]`, which
      panics; the intended window is `[40000, 65536)`. */
  lemma MemSliceMutAsWrittenPanicWitness()
    ensures var mem := seq(65536, _ => 0 as bv8);
      40000 <= |mem| && 40000 > |mem| - 40000 && MemSliceMut(mem, 40000) == Ok(Region(40000, 65536))
  {
  }

  const LOW_MASK: bv64 := 0xFFFF_FFFF

  /** Unpacks a result word into (length, offset): length in the low 32 bits,
      offset in the high 32 bits. The two halves rebuild the word exactly. */
  function Unpack(word: bv64): (r: (bv64, bv64))
    ensures r.0 <= LOW_MASK && r.1 <= LOW_MASK
    ensures r.0 | (r.1 << 32) == word
  {
    (word & LOW_MASK, word >> 32)
  }
}
