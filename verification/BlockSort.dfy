/** BZ2_blockSort: which sorter sorts. */
module BlockSort {
  import opened BitTable
  import opened Bwt
  import opened Counting
  import FallbackSort
  import MainSort
  import opened Permutations
  import opened QuadrantCache
  import opened Rotations
  import opened WordMemory

  const SMALL_BLOCK := 10000

  lemma SortedIsPerm(b: seq<int>, f: seq<int>)
    requires SortedRotations(b, f)
    ensures IsPerm(f, |b|)
  {
  }

  /** The bytes of the block, on which the main sorter works. */
  method Unpack(arr2: array<int>, nblock: nat) returns (block: array<int>)
    requires nblock <= arr2.Length
    ensures fresh(block) && block.Length == nblock + N_OVERSHOOT && block[..nblock] == Bytes(arr2[..], nblock)
  {
    hide Bytes;
    ghost var b := Bytes(arr2[..], nblock);
    block := new int[nblock + N_OVERSHOOT];
    for i := 0 to nblock
      invariant block[..i] == b[..i]
      modifies block
    {
      block[i] := GetByte(arr2, i, b);
      assert block[..i + 1] == block[..i] + [block[i]] && b[..i + 1] == b[..i] + [b[i]];
    }
    assert b[..nblock] == b;
  }

  /** Small blocks go to fallbackSort; others to mainSort, and to fallbackSort when its budget is used up. Either way
      `arr1` lists all rotations in order, and `origPtr` is the place of rotation 0. */
  method BlockSort(arr1: array<int>, arr2: array<int>, bhtab: array<Word>, nblock: nat, workFactor: int) returns (origPtr: nat)
    requires arr1 != arr2 && 0 < nblock <= 900_000
    requires nblock <= arr1.Length && nblock <= arr2.Length && bhtab.Length >= nblock / 32 + 3
    modifies arr1, arr2, bhtab
    ensures SortedRotations(Bytes(old(arr2[..]), nblock), arr1[..nblock])
    ensures Bytes(arr2[..], nblock) == Bytes(old(arr2[..]), nblock)
    ensures origPtr < nblock && arr1[origPtr] == 0
  {
    hide SortedRotations, Bytes;
    ghost var b := Bytes(arr2[..], nblock);
    if nblock < SMALL_BLOCK {
      FallbackSort.FallbackSort(arr1, arr2, bhtab, nblock);
    } else {
      var block := Unpack(arr2, nblock);
      var quadrant := new UInt16[nblock + N_OVERSHOOT](_ => 0);
      var ftab := new int[65537];
      var wfact := if workFactor < 1 then 1 else if workFactor > 100 then 100 else workFactor;
      var budgetInit := nblock * ((wfact - 1) / 3);
      var budget := MainSort.MainSort(arr1, block, quadrant, ftab, nblock, budgetInit);
      if budget < 0 {
        FallbackSort.FallbackSort(arr1, arr2, bhtab, nblock);
      }
    }
    SortedIsPerm(b, arr1[..nblock]);
    origPtr := FindOrigPtr(arr1, nblock, b);
  }
}
