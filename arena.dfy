/**
 * The memory plan of `config` (src/WorkerMain.ts:54-76): four regions laid out one
 * after the other from the asm.js heap base, the total rounded up to whole 64 KiB
 * pages, and the rule that decides whether the byte buffer is replaced.
 */
module Arena {
  import opened Common
  import opened Threads

  const MaxPassLen: nat := 64
  const MaxSaltLen: nat := 64
  const MaxDkLen: nat := 64
  /** The buffer is always a whole number of 64 KiB asm.js pages. */
  const PageSize: nat := 65536

  /** Offsets of the password, salt, derived-key and block regions, and the page-rounded end. */
  datatype Layout = Layout(passPtr: nat, saltPtr: nat, dkPtr: nat, blksPtr: nat, total: nat)

  /** Math.ceil(n / 65536) * 65536. */
  function RoundUpToPage(n: nat): (r: nat)
    ensures r % PageSize == 0
    ensures n <= r < n + PageSize
  {
    CeilDiv(n, PageSize) * PageSize
  }

  /**
   * The layout `config` computes from the heap base: each fixed-capacity region
   * starts where the previous one ends, the P blocks of blkLen bytes come last,
   * and the total is the least page multiple that holds them all.
   */
  function PlanArena(heap: nat, blkLen: nat, p: nat): (l: Layout)
    ensures l.passPtr == heap
    ensures l.saltPtr == l.passPtr + MaxPassLen
    ensures l.dkPtr == l.saltPtr + MaxSaltLen
    ensures l.blksPtr == l.dkPtr + MaxDkLen
    ensures l.total % PageSize == 0
    ensures l.blksPtr + Mul(blkLen, p) <= l.total < l.blksPtr + Mul(blkLen, p) + PageSize
  {
    var passPtr := heap;
    var saltPtr := passPtr + MaxPassLen;
    var dkPtr := saltPtr + MaxSaltLen;
    var blksPtr := dkPtr + MaxDkLen;
    Layout(passPtr, saltPtr, dkPtr, blksPtr, RoundUpToPage(blksPtr + Mul(blkLen, p)))
  }

  /** `!mAsmBuf || mAsmBuf.byteLength < ptr`: a new buffer is needed. */
  predicate Reallocates(current: Option<nat>, need: nat)
  {
    current.None? || current.value < need
  }

  /**
   * The length of the buffer after `config`, given the length of the old one (if any)
   * and the planned total: never smaller than either.
   */
  function ArenaSizeAfter(current: Option<nat>, need: nat): (size: nat)
    ensures size >= need
    ensures current.Some? ==> size >= current.value
    ensures !Reallocates(current, need) ==> size == current.value
    ensures Reallocates(current, need) ==> size == need
  {
    if Reallocates(current, need) then need else current.value
  }
}
