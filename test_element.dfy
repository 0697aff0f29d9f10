/**
 * The test element's `signal` export: it adds each byte's 1-based position to
 * it, in place, and returns the buffer's length. Position and bytes are both
 * `u8`, so both wrap at 256.
 */
module TestElement {
  import opened Bytes

  /** What the byte at offset `k` of the input becomes. */
  function Bumped(v: Byte, k: nat): (r: Byte)
    ensures r as int == (v as int + k + 1) % 256
  {
    WrappingAdd(v, k + 1)
  }

  /** `signal(input_ptr, input_length)` over the guest's linear memory. The
      source builds a slice from the raw pointer, so the window must lie in
      memory. */
  method Signal(memory: array<Byte>, ptr: nat, len: nat) returns (r: nat)
    requires ptr + len <= memory.Length
    modifies memory
    ensures r == len
    ensures forall j :: 0 <= j < memory.Length ==>
      memory[j] == if ptr <= j < ptr + len then Bumped(old(memory[j]), j - ptr) else old(memory[j])
  {
    var index: Byte := 0;
    var i := 0;
    while i < len
      invariant 0 <= i <= len
      invariant index as int == i % 256
      invariant forall j :: 0 <= j < memory.Length ==>
        memory[j] == if ptr <= j < ptr + i then Bumped(old(memory[j]), j - ptr) else old(memory[j])
    {
      ModStep(memory[ptr + i], i);
      index := WrappingAdd(index, 1);
      memory[ptr + i] := WrappingAdd(memory[ptr + i], index as int);
      i := i + 1;
    }
    r := len;
  }

  /** Adding the wrapped position is adding the position, modulo 256. */
  lemma ModStep(v: Byte, i: nat)
    ensures (i % 256 + 1) % 256 == (i + 1) % 256
    ensures WrappingAdd(v, (i % 256 + 1) % 256) == Bumped(v, i)
  {
    var a := v as int;
    var q := i / 256;
    assert i == 256 * q + i % 256;
    ShiftMod(i % 256 + 1, q);
    ShiftMod(a + i % 256 + 1, q);
    ModOfMod(a, i % 256 + 1);
  }

  /** Adding a multiple of 256 does not change a value modulo 256. */
  lemma ShiftMod(x: int, q: int)
    ensures (x + 256 * q) % 256 == x % 256
  {
  }

  lemma ModOfMod(a: int, b: int)
    ensures (a + b % 256) % 256 == (a + b) % 256
  {
    ShiftMod(a + b % 256, b / 256);
  }

  /** Positions 256 apart get the same increment, so a buffer longer than 256
      bytes sees the increments cycle. */
  lemma IncrementCycles(v: Byte, k: nat)
    ensures Bumped(v, k + 256) == Bumped(v, k)
  {
  }

  /** In a short buffer byte `k` is raised by exactly `k + 1` when that does not overflow. */
  lemma NoWrapWhenSmall(v: Byte, k: nat)
    requires v as int + k + 1 < 256
    ensures Bumped(v, k) as int == v as int + k + 1
  {
  }
}
