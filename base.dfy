// The baseline flat mapping table used by the benchmarks: one u64 slot per
// LBA, with u64::MAX marking an LBA that has no physical address yet.

module Bench {
  import opened Common

  /** What a stored slot means: the all-ones word is "unmapped". */
  function SlotValue(pba: u64): (r: Option<u64>)
    ensures r.None? <==> pba == U64_MAX
    ensures r.Some? ==> r.value == pba
  {
    if pba == U64_MAX then None else Some(pba)
  }

  class Base {
    var table: array<u64>

    /** A table of `cap` slots, every one unmapped. */
    constructor (cap: nat)
      ensures fresh(table)
      ensures table.Length == cap
      ensures forall i :: 0 <= i < cap ==> table[i] == U64_MAX
      ensures forall lba: u64 :: Get(lba).None?
    {
      table := new u64[cap](_ => U64_MAX);
    }

    /** The PBA stored for `lba`; None past the end of the table or for an unmapped slot. */
    function Get(lba: u64): (r: Option<u64>)
      reads this, table
      ensures r.Some? <==> lba < table.Length && table[lba] != U64_MAX
      ensures r.Some? ==> r.value == table[lba]
    {
      if lba >= table.Length then None else SlotValue(table[lba])
    }

    /** Stores `pba` for `lba` when `lba` is inside the table; otherwise nothing changes. */
    method Set(lba: u64, pba: u64)
      modifies table
      ensures table[..] == if lba < table.Length then old(table[..])[lba := pba] else old(table[..])
      ensures Get(lba) == if lba < table.Length then SlotValue(pba) else None
      ensures forall other: u64 :: other != lba ==> Get(other) == old(Get(other))
    {
      if lba < table.Length {
        table[lba] := pba;
      }
    }
  }
}
