/** What several modules share. */
module Common {

  /** 2 to the 32nd: the range of an unsigned machine word. */
  const WORD: nat := 0x1_0000_0000

  const PAGE_SIZE: nat := 4096

  function AlignDown(addr: nat): nat { addr / PAGE_SIZE * PAGE_SIZE }

  function AlignUp(addr: nat): nat { AlignDown(addr + (PAGE_SIZE - 1)) }

  /** A predicate written as `forall k :: Unfold(k) ==> ...` stays folded in a proof until the
      proof mentions `Unfold`: `Descriptors.Represents`, `Malloc.HeapOk`, `Arccot.IsPower`, and
      `Stands`, `Takes` and `History` of TaskTable. */
  ghost predicate Unfold(k: int) { true }

  /** Likewise for `Granted`, `Returned` and `StackMade` of ProcessMemory and `MemoryRuns.History`,
      which occur together with `Represents` and must not unfold with it. */
  ghost predicate Expand(k: int) { true }
}
