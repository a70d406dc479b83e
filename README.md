# The coordinator of a parallel scrypt, in Dafny

This project models `src/WorkerMain.ts`, the main-thread side of a parallel scrypt
implementation. The coordinator owns one byte buffer (the asm.js heap) with four
regions at fixed offsets from the heap base: password, salt, derived key, and P
blocks of 128·r bytes. Its work runs in these steps:

- `config` chooses the number of Web Workers T, plans the regions, replaces the buffer
  only when it is too small, and sends N and r to workers 0..T-1. Workers left in the
  pool beyond T by an earlier `config` get nothing.
- `hash` copies password and salt into their regions. It runs one-iteration PBKDF2
  into the block region, then hands block i to worker i.
- Workers answer `done` with the smix of their block. The coordinator writes the
  bytes back into that block's slot and gives the worker the next unassigned block
  (a greedy pull scheduler).
- When all P blocks are back, `complete` runs the second PBKDF2 into the key region
  and hands the first dkLen bytes to `oncomplete`.
- `ready`, `fail` and bare-number messages count readiness, report an error, or are
  answered at once.

The modules follow the program's structure:

- `Common`: bytes, `Option`, `Max`, `Mul`, `Ascending`.
- `Threads`: the automatic thread count.
- `Arena`: the layout planner and the reallocation rule.
- `Blocks`:
  - the block region seen as P slots;
  - the in-place copy `Uint8Array.set` as `Splice`, and region reads as `Region`;
  - the effect of a sequence of replies (`ApplyDones`), and why it does not depend on their order.
- `Kdf`: the two asm.js primitives, kept abstract, and the reference derivation `Derive`.
- `Steps`:
  - the module's whole state as one value;
  - every operation as a step on that value;
  - the coordinator's invariant and the properties of each step.
- `WorkerMain`: class `Coordinator`:
  - the module-level variables are its fields, and the buffer is an `array<byte>` written in place;
  - each exported function and each branch of the message handler is a method with the original's loops;
  - a ghost field holds the state value; each method is specified by the step it performs on it, and keeps the invariant.

Messages sent to workers and host callbacks (`onready`, `oncomplete`, `onerror`) are
logged in that state value. The heap base (`getHeap()`), PBKDF2 (`_PBKDF2_OneIter`)
and smix are parameters of the model.

The message handler's `switch` on `msg.state` has no default branch
(src/WorkerMain.ts:180-203), so a message with any other state is ignored; the model
does the same (`Steps.MessageStep`, `Steps.QuietMessages`). `complete` is called
only from the `done` branch (src/WorkerMain.ts:187-188), so with P = 0 no reply ever
finishes a derivation. The model requires P ≥ 1.

## Model

| member | source | states |
|---|---|---|
| Threads.CeilDiv | src/WorkerMain.ts:45-46 | the quotient q satisfies a ≤ q·b < a + b: `Math.ceil(a / b)` for non-negative a and positive b |
| Threads.AutoThreads | src/WorkerMain.ts:44-47 | for P ≥ 1 the automatic count T = ceil(P / ceil(P/4)) has 1 ≤ T ≤ 4 and T ≤ P, and T workers with ceil(P/4) blocks each cover all P blocks |
| Threads.ThreadCount | src/WorkerMain.ts:43-47 | a given `thread` is used as is, otherwise the automatic count; either way 1 ≤ T ≤ P |
| Arena.RoundUpToPage | src/WorkerMain.ts:69 | the result is a multiple of 65536 and the least one that is at least n |
| Arena.PlanArena | src/WorkerMain.ts:55-69 | pass = base, salt = base+64, dk = base+128, blocks = base+192, so the regions are disjoint and in that order; the total is a page multiple that holds the P·blkLen block bytes and is less than a page beyond them |
| Arena.ArenaSizeAfter | src/WorkerMain.ts:72-76 | the buffer is replaced exactly when it is absent or shorter than the total; it never shrinks and is never smaller than the total |
| Kdf.Stretch | src/WorkerMain.ts:110-114 | PBKDF2 leaves exactly the n requested bytes in the region it fills |
| Kdf.DefaultDkLen | src/WorkerMain.ts:104 | `dkLen \|\| maxDkLen`: 0 (absent) becomes 64, any other length is kept |
| Kdf.StretchLen | src/WorkerMain.ts:162 | the final PBKDF2 is asked for max(dkLen, 32) bytes |
| Kdf.FinalKey | src/WorkerMain.ts:159-166 | the delivered key is dkLen bytes long and a prefix of that final PBKDF2 output |
| Kdf.ShortKeysArePrefixes | src/WorkerMain.ts:162-166 | keys up to 32 bytes are all cut from the same 32-byte output, so a shorter one is a prefix of a longer one |
| Kdf.Split | src/WorkerMain.ts:110-114 | the first PBKDF2 output read as P blocks of blkLen bytes that laid end to end give back the output |
| Blocks.Region | src/WorkerMain.ts:207-208 | `slice(ptr, ptr + n)`: n bytes, byte i of which is byte at + i of the buffer |
| Blocks.Splice | src/WorkerMain.ts:185 | `set(src, off)`: the buffer keeps its length, holds src at off and is unchanged outside that window |
| Blocks.RegionSlotWrite | src/WorkerMain.ts:185 | writing a block at blocks + blkLen·i over a region that holds the blocks changes exactly block i of them |
| Blocks.ApplyDonesPermutation | src/WorkerMain.ts:181-190 | any two orders of the same replies, one per block, leave the same blocks |
| Blocks.AllDone | src/WorkerMain.ts:187-188 | once P replies for distinct indices below P are in, whatever their order, every block holds what was answered for it |
| Blocks.DistinctCount | src/WorkerMain.ts:184-187 | the replies answer pairwise different indices exactly when they answer as many indices as there are replies |
| Steps.Grow | src/WorkerMain.ts:82-89 | the pool grows to at least `threads` workers, keeping existing ones and giving new ones tag 0 |
| Steps.ConfigStep | src/WorkerMain.ts:43-96 | after `config` the buffer exists and is as long as the reallocation rule says; it is the old buffer unless replaced, and a new one is all zeros; T is the thread count, the ready counter is 0, the pool has grown to T with tag-0 workers, and N and r were sent to workers 0..T-1 |
| Steps.ConfigKeepsInv | src/WorkerMain.ts:43-96 | `config` in any state, with tasks out or not, keeps the invariant and leaves the coordinator idle with a planned layout, a buffer that holds it, and 1 ≤ T ≤ P pooled workers |
| Steps.TaskStep | src/WorkerMain.ts:206-215 | `task(w)` tags w with the old doing counter, adds exactly 1 to that counter, and changes nothing else but the log; the buffer is untouched |
| Steps.TaskSendsSeed | src/WorkerMain.ts:207-214 | during a derivation the block `task` copies out is the unanswered first-stretch block of the index it assigns |
| Steps.TaskKeepsInv | src/WorkerMain.ts:206-215 | `task` for an idle pooled worker keeps the invariant (each index is handed out once, done ≤ doing ≤ P) and sends the first-stretch block of the index it assigns |
| Steps.TaskLoop | src/WorkerMain.ts:116-118 | i rounds of the dispatch loop leave the doing counter at i and change only the tags, the busy flags, the messages sent and the record of which worker holds which index |
| Steps.TaskLoopTags | src/WorkerMain.ts:116-118 | after i rounds of `hash`'s loop workers 0..i-1 carry tags 0..i-1 and are busy, index j went to worker j, and the other workers are unchanged |
| Steps.TaskLoopSends | src/WorkerMain.ts:116-118 | the loop sends worker j the first-stretch block j, in worker order |
| Steps.Seed | src/WorkerMain.ts:99-114 | before the loop `hash` records the two lengths, defaults dkLen, restarts both counters with no reply in, and keeps the layout, the pool, the messages and the buffer's length |
| Steps.SeedRegions | src/WorkerMain.ts:99-114 | after the two copies the password and salt are in their regions, and the block region is PBKDF2 over exactly them |
| Steps.HashStep | src/WorkerMain.ts:98-119 | `hash` starts a derivation with dkLen defaulted, doing = T, done = 0 and no reply in; layout, pool size, buffer length and callbacks are unchanged |
| Steps.HashEffect | src/WorkerMain.ts:98-119 | after `hash`: the invariant holds, dkLen is defaulted, no reply is in, doing = T and done = 0, workers 0..T-1 are busy with blocks 0..T-1 and the rest idle, and block i of the first PBKDF2 went to worker i |
| Steps.DoneMeansIdle | src/WorkerMain.ts:187-190 | when done reaches P every index 0..P-1 has been handed out once and no worker holds a task |
| Steps.Record | src/WorkerMain.ts:183-187 | the reply is recorded against the index the worker's tag names |
| Steps.KeyBytes | src/WorkerMain.ts:159-163 | the final PBKDF2 call asks for max(dkLen, 32) bytes; `Steps.KeyBytesRead` adds that during a derivation it is PBKDF2 over the password and the current blocks |
| Steps.CompleteStep | src/WorkerMain.ts:157-168 | `complete` changes the buffer only inside the max(dkLen, 32)-byte key region |
| Steps.CompleteDelivers | src/WorkerMain.ts:157-168 | `oncomplete` receives the first dkLen bytes of PBKDF2 over the password and the current blocks |
| Steps.CompleteKeepsInv | src/WorkerMain.ts:157-168 | `complete` touches neither the password nor the block region, and leaves every worker idle |
| Steps.FinishedBlocks | src/WorkerMain.ts:185-188 | when every worker returned smix of its block, the block region holds smix of every first-stretch block, whatever the order of the replies |
| Steps.CompleteIsDerive | src/WorkerMain.ts:157-168 | with honest workers the key `complete` delivers is the reference scrypt derivation of password and salt |
| Steps.DoneStep | src/WorkerMain.ts:181-192 | a `done` reply adds exactly 1 to the done counter and records the worker's tag with its bytes; layout, P, T and the ready counter are unchanged |
| Steps.DoneKeepsInv | src/WorkerMain.ts:181-192 | a `done` reply keeps the invariant, adds exactly 1 to the done counter, and replaces exactly the block of the worker's tag |
| Steps.DoneCompletes | src/WorkerMain.ts:187-188 | the reply that makes done equal P fires `oncomplete` with the key over the blocks including this reply; the tags, doing counter and messages are unchanged and every worker is idle |
| Steps.DoneContinues | src/WorkerMain.ts:189-191 | any other reply fires no callback; while doing < P the worker gets the next index and its first-stretch block, and otherwise it just becomes idle |
| Steps.DoneWritesSlot | src/WorkerMain.ts:183-188 | on `done` the buffer changes only in the slot at blocks + blkLen·tag, which now holds the returned bytes, and, when the reply is the last, in the key region |
| Steps.ReadyStep | src/WorkerMain.ts:194-198 | `ready` adds 1 to the ready counter and changes nothing else but the callbacks, which only grow; `onready` is added exactly when the new count equals T |
| Steps.FailStep | src/WorkerMain.ts:200-202 | `fail` only adds `onerror('memory alloc fail')`, which leaves the `onready` count as it was |
| Steps.PingStep | src/WorkerMain.ts:175-178 | a bare number only posts `true` back to the worker that sent it |
| Steps.ReadyFiresOnce | src/WorkerMain.ts:194-198 | after `config` reset the ready counter, `onready` fires exactly once over any k ≥ T `ready` replies, and not at all for fewer |
| Steps.MessageStep | src/WorkerMain.ts:170-204 | no message changes the layout, P or T; all but `done` leave the buffer, the tags and the done counter, and all but `ready` leave the ready counter |
| Steps.MessageKeepsInv | src/WorkerMain.ts:170-204 | every message the handler accepts keeps the invariant |
| Steps.QuietMessages | src/WorkerMain.ts:170-204 | a bare number, a `fail` or an unknown state leaves the counters, tags and buffer unchanged; only the `true` reply or `onerror('memory alloc fail')` is added |
| Steps.FreeStep | src/WorkerMain.ts:121-127 | `free` only appends one `free` message per pooled worker, in pool order, after the messages already sent |
| Steps.UnloadStep | src/WorkerMain.ts:129-136 | after `unload` the pool is empty, no task is out, the buffer is gone and no derivation is under way; messages, callbacks and the ready counter are kept |
| Steps.UnloadKeepsInv | src/WorkerMain.ts:129-136 | after `unload` the pool is empty, there is no buffer, and the invariant holds |
| WorkerMain.Write | src/WorkerMain.ts:185 | the array loop performing `set` leaves the array holding the spliced bytes |
| WorkerMain.Read | src/WorkerMain.ts:208 | the copy `slice` returns is the region's bytes |
| WorkerMain.SeedArena | src/WorkerMain.ts:99-114 | the buffer work of `hash`: the two copies, then PBKDF2 over the two regions into the block region |
| WorkerMain.Coordinator.constructor | src/WorkerMain.ts:15-40 | the module starts with no buffer, no workers and empty logs, and satisfies the invariant |
| WorkerMain.Coordinator.Config | src/WorkerMain.ts:43-96 | from any state, with tasks out or not, performs `Steps.ConfigStep`, keeps the invariant and leaves the coordinator idle; the buffer is a fresh array exactly when it is reallocated |
| WorkerMain.Coordinator.Configure | src/WorkerMain.ts:43-96 | the field and buffer updates of `config` agree with `Steps.ConfigStep` |
| WorkerMain.Coordinator.Setup | src/WorkerMain.ts:44-76 | thread count, block length, layout and ready counter, and a new zeroed buffer only when there is none or it is too small |
| WorkerMain.Coordinator.Plan | src/WorkerMain.ts:44-69 | the step-by-step `ptr +=` computation yields `Arena.PlanArena` and `Threads.ThreadCount` |
| WorkerMain.Coordinator.Provide | src/WorkerMain.ts:72-76 | the array is replaced by a fresh zeroed one exactly when it is missing or shorter than needed |
| WorkerMain.Coordinator.Enlist | src/WorkerMain.ts:82-95 | the pool loop grows the pool with tag-0 workers and sends workers 0..T-1 N and r, in order |
| WorkerMain.Coordinator.Task | src/WorkerMain.ts:206-215 | performs `Steps.TaskStep`, sending the bytes read from the block's slot; keeps the invariant and the array |
| WorkerMain.Coordinator.Hash | src/WorkerMain.ts:98-119 | performs `Steps.HashStep` and keeps the invariant |
| WorkerMain.Coordinator.Seeding | src/WorkerMain.ts:99-114 | copies, lengths, counters and the first PBKDF2 agree with `Steps.Seed`; the coordinator stays idle |
| WorkerMain.Coordinator.Dispatch | src/WorkerMain.ts:116-118 | the loop performs `Steps.TaskLoop` for the first T workers |
| WorkerMain.Coordinator.Complete | src/WorkerMain.ts:157-168 | performs `Steps.CompleteStep`; with honest workers the key passed to `oncomplete` is `Kdf.Derive` of password and salt |
| WorkerMain.Coordinator.OnDone | src/WorkerMain.ts:181-192 | performs `Steps.DoneStep`: write back, count, then `complete` or the next `task`; keeps the invariant |
| WorkerMain.Coordinator.Collect | src/WorkerMain.ts:183-187 | the write into the tagged slot and the counter update agree with `Steps.Record` |
| WorkerMain.Coordinator.OnReady | src/WorkerMain.ts:194-198 | performs `Steps.ReadyStep` and keeps the invariant |
| WorkerMain.Coordinator.OnFail | src/WorkerMain.ts:200-202 | performs `Steps.FailStep` and keeps the invariant |
| WorkerMain.Coordinator.OnPing | src/WorkerMain.ts:175-178 | performs `Steps.PingStep` and keeps the invariant |
| WorkerMain.Coordinator.OnMessage | src/WorkerMain.ts:170-204 | performs `Steps.MessageStep` and keeps the invariant |
| WorkerMain.Coordinator.Free | src/WorkerMain.ts:121-127 | the loop sends `free` to every pooled worker, in order; nothing else changes |
| WorkerMain.Coordinator.Unload | src/WorkerMain.ts:129-136 | performs `Steps.UnloadStep`: the pool is empty and the buffer is gone |

## Left out

- Worker creation, `createWorkerUrl`, `Blob` and `URL.createObjectURL`/`revokeObjectURL` are host I/O (src/WorkerMain.ts:78-80, 84-89, 135, 138-155). A pooled worker is its index in the pool.
- `postMessage` and `terminate` are host I/O. A post is appended to a log in the state; transfer lists are not modelled.
- Message interleaving is modelled as arbitrary sequential calls of the handler's methods; real concurrency is left out.
- The asm.js module is foreign code: `_PBKDF2_OneIter` is a function parameter, and smix is a ghost parameter used only to state what honest workers return.
- `getHeap()` is a constructor parameter.
- Kdf.Stretch: only the length of PBKDF2's output is stated, because the routine is not part of this model.
- Steps.CompleteStep: the model assumes PBKDF2 writes only its output region. The buffer is the asm.js module's own heap (src/WorkerMain.ts:75), so any working memory the module keeps below `getHeap()` is not modelled. The frames of `Steps.CompleteStep`, `Steps.DoneWritesSlot` and `Steps.SeedRegions` rest on this assumption.
- `unload` is kept as "the pool becomes empty and the buffer is dropped". Dropping the asm.js module is a flag that stops later `config` calls.
- Steps.CompleteStep: `oncomplete` is given a copy of the key bytes taken when `complete` runs. The original hands over a view into the buffer, so later writes into the buffer would show through it; that aliasing is not modelled.
- `Math.ceil` on floating point is replaced by integer ceiling division.
- P = 0 with an automatic thread count gives NaN in the original; the model requires P ≥ 1.
- A given `thread` larger than P makes `hash` hand out indices beyond P. The methods require 1 ≤ thread ≤ P.
- The password and salt lengths (at most 64) and dkLen (0..64) are stated as preconditions of `hash`. The original does not check them; a longer input would overwrite the next region.
- `done` requires a reply from a busy worker with exactly one block of bytes, as the worker protocol provides.
- WorkerMain.Coordinator.Config: a `config` while tasks are out abandons them (no worker counts as busy afterwards). A `done` that such a worker sends later is not modelled, because `done` requires a busy worker.
- WorkerMain.Coordinator.Hash: requires an idle coordinator, so a `hash` started while replies of an earlier one are still due is not modelled; the original does not check this.
- Bytes are the numbers 0..255 (a `newtype`). A new `ArrayBuffer` is modelled as all zeros.
