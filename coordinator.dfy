/**
 * The coordinator of src/WorkerMain.ts as an object: the module's variables are
 * its fields, `config`, `hash`, `task`, `complete`, `free`, `unload` and the
 * branches of the worker message handler are its methods, and the byte buffer is
 * an array the methods overwrite in place. A ghost field holds the whole state as
 * a value of module Steps, kept equal to the real fields and the buffer's bytes;
 * each method is specified by the step of module Steps it performs on that value
 * and keeps the invariant proved there. Messages to workers and the host callbacks
 * (`onready`, `oncomplete`, `onerror`) are logged in that value.
 */
module WorkerMain {
  import opened Common
  import opened Threads
  import opened Arena
  import opened Blocks
  import opened Kdf
  import opened Steps

  /** The array holds exactly the bytes m. */
  ghost predicate Holds(a: array<byte>, m: seq<byte>)
    reads a
  {
    a[..] == m
  }

  /** `mAsmU8.set(src, off)`: copy src into the buffer at offset off. */
  method Write(a: array<byte>, ghost m: seq<byte>, off: nat, src: seq<byte>)
    requires Holds(a, m) && off + |src| <= |m|
    modifies a
    ensures Holds(a, Splice(m, off, src))
  {
    forall j | 0 <= j < |src| {
      a[off + j] := src[j];
    }
    var r := Splice(m, off, src);
    forall k | 0 <= k < |m|
      ensures a[k] == r[k]
    {
      if off <= k < off + |src| {
        assert a[off + (k - off)] == src[k - off];
        SpliceAt(m, off, src, k);
      }
    }
  }

  /** A copy of the n bytes of the buffer from offset at (`slice`, or a view read at once). */
  method Read(a: array<byte>, ghost m: seq<byte>, at: nat, n: nat) returns (r: seq<byte>)
    requires Holds(a, m) && at + n <= |m|
    ensures r == Region(m, at, n)
  {
    r := a[at..at + n];
    assert forall k :: 0 <= k < n ==> r[k] == Region(m, at, n)[k];
  }

  /**
   * The buffer work of `hash`: copy password and salt into their regions, then
   * run PBKDF2 over the two regions into the n bytes of the block region.
   */
  method SeedArena(a: array<byte>, ghost m: seq<byte>, l: Layout, stretch: StretchFn, passBin: seq<byte>, saltBin: seq<byte>, n: nat)
    requires Holds(a, m)
    requires l.passPtr + |passBin| <= |m| && l.saltPtr + |saltBin| <= |m| && l.blksPtr + n <= |m|
    modifies a
    ensures var m1 := Copied(m, l, passBin, saltBin);
      Holds(a, Splice(m1, l.blksPtr, SeedBytes(stretch, m1, l, |passBin|, |saltBin|, n)))
  {
    Write(a, m, l.passPtr, passBin);
    ghost var m0 := Splice(m, l.passPtr, passBin);
    Write(a, m0, l.saltPtr, saltBin);
    ghost var m1 := Splice(m0, l.saltPtr, saltBin);
    var pass := Read(a, m1, l.passPtr, |passBin|);
    var salt := Read(a, m1, l.saltPtr, |saltBin|);
    var seed := Stretch(stretch, pass, salt, n);
    Write(a, m1, l.blksPtr, seed);
  }

  class Coordinator {
    /** `mAsmMod.getHeap()`: where the asm.js module's free heap begins. */
    const heap: nat
    /** The asm.js module's `_PBKDF2_OneIter`. */
    const stretch: StretchFn
    /** The workers' smix; the coordinator never calls it. */
    ghost const mix: MixFn

    /** mAsmBuf: null before the first `config` and after `unload`. */
    var arena: array?<byte>
    /** mPassPtr, mSaltPtr, mDkPtr, mBlksPtr, and the page-rounded total. */
    var layout: Layout
    var argP: nat
    var blkLen: nat
    var threads: nat
    var passLen: nat
    var saltLen: nat
    var dkLen: nat
    /** The `tag` of each worker of mWorkerPool; its length is the size of the pool. */
    var tags: seq<nat>
    var readyCounter: nat
    var doingCounter: nat
    var doneCounter: nat
    /** `unload` has dropped the asm.js module, so `config` can no longer run. */
    var unloaded: bool

    /** The whole state as a value: the fields above, the two logs and the bookkeeping of the current `hash`. */
    ghost var st: State

    /** The real fields and the buffer agree with the state value. */
    ghost predicate Coupled()
      reads this, arena
    {
      && (arena == null <==> st.mem.None?)
      && (arena != null ==> Holds(arena, st.mem.value))
      && (layout, argP, blkLen, threads, passLen, saltLen, dkLen, tags,
          readyCounter, doingCounter, doneCounter, unloaded)
         == (st.layout, st.argP, st.blkLen, st.threads, st.passLen, st.saltLen, st.dkLen, st.tags,
             st.readyCounter, st.doingCounter, st.doneCounter, st.unloaded)
    }

    ghost predicate Valid()
      reads this, arena
    {
      Coupled() && Inv(heap, stretch, st)
    }

    /** The module's initial state: no buffer, no workers. */
    constructor (heap: nat, stretch: StretchFn, ghost mix: MixFn)
      ensures Valid()
      ensures this.heap == heap && this.stretch == stretch && this.mix == mix
      ensures arena == null && tags == [] && !unloaded && !st.started
      ensures st.outbox == [] && st.events == []
    {
      this.heap := heap;
      this.stretch := stretch;
      this.mix := mix;
      arena := null;
      layout := Layout(0, 0, 0, 0, 0);
      argP, blkLen, threads := 0, 0, 0;
      passLen, saltLen, dkLen := 0, 0, 0;
      tags := [];
      readyCounter, doingCounter, doneCounter := 0, 0, 0;
      unloaded := false;
      st := State(None, Layout(0, 0, 0, 0, 0), 0, 0, 0, 0, 0, 0, [], 0, 0, 0, false,
                  [], [], 0, 0, [], false, [], [], [], [], []);
    }

    /**
     * `config(N, r, P, thread)`: fix the thread count and the layout, replace the
     * buffer only when it is missing or too small, grow the pool to `threads`
     * workers and send each of the first `threads` its cost parameters.
     */
    method Config(n: nat, r: nat, p: nat, thread: Option<nat>)
      requires Valid() && !unloaded
      requires p >= 1
      requires thread.Some? ==> 1 <= thread.value <= p
      modifies this`arena, this`layout, this`argP, this`blkLen, this`threads, this`tags,
               this`readyCounter, this`st
      ensures st == ConfigStep(heap, old(st), n, r, p, thread)
      ensures Valid() && Idle(st)
      ensures Reallocates(Size(old(st).mem), layout.total) ==> fresh(arena)
      ensures !Reallocates(Size(old(st).mem), layout.total) ==> arena == old(arena)
    {
      ConfigKeepsInv(heap, stretch, st, n, r, p, thread);
      Configure(n, r, p, thread);
    }

    /** The state changes of `config`, whatever held before: the invariant is left to the caller. */
    method Configure(n: nat, r: nat, p: nat, thread: Option<nat>)
      requires Coupled()
      requires p >= 1
      requires thread.Some? ==> 1 <= thread.value <= p
      modifies this`arena, this`layout, this`argP, this`blkLen, this`threads, this`tags,
               this`readyCounter, this`st
      ensures st == ConfigStep(heap, old(st), n, r, p, thread)
      ensures Coupled()
      ensures Reallocates(Size(old(st).mem), layout.total) ==> fresh(arena)
      ensures !Reallocates(Size(old(st).mem), layout.total) ==> arena == old(arena)
    {
      ghost var s0 := st;
      Setup(r, p, thread);
      ghost var posted := Enlist(threads, n, r);
      st := ConfigStep(heap, s0, n, r, p, thread);
      assert st.outbox == s0.outbox + posted;
    }

    /**
     * The scalar part of `config`: the thread count, the block length and the
     * layout, the ready counter back at 0, and a new zeroed buffer only when there
     * is none or it is smaller than the layout.
     */
    method Setup(r: nat, p: nat, thread: Option<nat>)
      requires p >= 1
      requires thread.Some? ==> 1 <= thread.value <= p
      modifies this`arena, this`layout, this`argP, this`blkLen, this`threads, this`readyCounter
      ensures threads == ThreadCount(p, thread) && blkLen == 128 * r && argP == p && readyCounter == 0
      ensures layout == PlanArena(heap, blkLen, p)
      ensures arena != null
      ensures old(arena) == null || old(arena).Length < layout.total ==>
        fresh(arena) && arena[..] == Zeros(layout.total)
      ensures !(old(arena) == null || old(arena).Length < layout.total) ==> arena == old(arena)
    {
      Plan(r, p, thread);
      Provide(layout.total);
    }

    /** The arithmetic of `config`: the thread count, the block length and the layout; the ready counter restarts. */
    method Plan(r: nat, p: nat, thread: Option<nat>)
      requires p >= 1
      requires thread.Some? ==> 1 <= thread.value <= p
      modifies this`layout, this`argP, this`blkLen, this`threads, this`readyCounter
      ensures threads == ThreadCount(p, thread) && blkLen == 128 * r && argP == p && readyCounter == 0
      ensures layout == PlanArena(heap, blkLen, p)
    {
      var t: nat;
      if thread.None? {
        var taskPerThread := CeilDiv(p, MaxThread);
        t := CeilDiv(p, taskPerThread);
      } else {
        t := thread.value;
      }
      blkLen := 128 * r;
      argP := p;
      threads := t;
      readyCounter := 0;

      var ptr := heap;
      var passPtr := ptr;
      ptr := ptr + MaxPassLen;
      var saltPtr := ptr;
      ptr := ptr + MaxSaltLen;
      var dkPtr := ptr;
      ptr := ptr + MaxDkLen;
      var blksPtr := ptr;
      MulIsProduct(blkLen, p);
      ptr := ptr + blkLen * p;
      ptr := RoundUpToPage(ptr);
      layout := Layout(passPtr, saltPtr, dkPtr, blksPtr, ptr);
    }

    /** `!mAsmBuf || mAsmBuf.byteLength < ptr`: a new zeroed buffer only when there is none or it is too small. */
    method Provide(need: nat)
      modifies this`arena
      ensures arena != null
      ensures old(arena) == null || old(arena).Length < need ==> fresh(arena) && arena[..] == Zeros(need)
      ensures !(old(arena) == null || old(arena).Length < need) ==> arena == old(arena)
    {
      if arena == null || arena.Length < need {
        arena := new byte[need](_ => 0);
        assert arena[..] == Zeros(need);
      }
    }

    /**
     * The worker loop of `config`: grow the pool to t workers, a new one with tag 0,
     * and send each of the first t the cost parameters.
     */
    method Enlist(t: nat, ghost n: nat, ghost r: nat) returns (ghost posted: seq<Outgoing>)
      modifies this`tags
      ensures tags == Grow(old(tags), t, 0)
      ensures posted == ConfigMsgs(t, n, r)
    {
      ghost var tags0 := tags;
      posted := [];
      var i := 0;
      while i < t
        invariant 0 <= i <= t
        invariant tags == Grow(tags0, i, 0)
        invariant posted == ConfigMsgs(i, n, r)
      {
        if i >= |tags| {
          tags := tags + [0];
        }
        GrowStep(tags0, i, 0);
        ConfigMsgsSnoc(i, n, r);
        posted := posted + [ConfigMsg(i, n, r)];
        i := i + 1;
      }
    }

    /**
     * `task(worker)`: give worker w the next block. Its tag becomes the old doing
     * counter, the counter moves on by one, and a copy of that block's bytes goes
     * out; the arena is not touched.
     */
    method Task(w: nat)
      requires Valid() && st.started
      requires w < threads && !st.busy[w]
      requires doingCounter < argP
      modifies this`tags, this`doingCounter, this`st
      ensures st == TaskStep(heap, stretch, old(st), w)
      ensures Valid() && arena == old(arena)
    {
      ghost var s0 := st;
      SlotBound(blkLen, doingCounter, argP);
      var ptrBi := layout.blksPtr + Mul(blkLen, doingCounter);
      var bufBi := Read(arena, s0.mem.value, ptrBi, blkLen);
      TaskKeepsInv(heap, stretch, s0, w);
      tags, doingCounter, st := tags[w := doingCounter], doingCounter + 1, TaskStep(heap, stretch, s0, w);
      assert st.outbox == s0.outbox + [TaskMsg(w, bufBi)];
    }

    /**
     * `hash(pass, salt, dkLen)`: write password and salt into their regions, fill
     * the block region with the first PBKDF2 output, reset both counters, and hand
     * block i to worker i for every i below `threads`.
     */
    method Hash(passBin: seq<byte>, saltBin: seq<byte>, dk: nat)
      requires Valid() && Idle(st) && arena != null
      requires |passBin| <= MaxPassLen && |saltBin| <= MaxSaltLen && dk <= MaxDkLen
      modifies arena, this`passLen, this`saltLen, this`dkLen, this`doingCounter, this`doneCounter,
               this`tags, this`st
      ensures st == HashStep(heap, stretch, old(st), passBin, saltBin, dk)
      ensures Valid()
    {
      Seeding(passBin, saltBin, dk);
      Dispatch();
    }

    /** The loop of `hash`: `task` for each of the first `threads` workers in turn. */
    method Dispatch()
      requires Valid() && st.started && Idle(st) && st.doingCounter == 0
      modifies this`tags, this`doingCounter, this`st
      ensures st == TaskLoop(heap, stretch, old(st), old(st).threads)
      ensures Valid()
    {
      ghost var s1 := st;
      var i := 0;
      while i < threads
        invariant i <= threads
        invariant Valid() && st == TaskLoop(heap, stretch, s1, i)
      {
        TaskLoopStep(heap, stretch, s1, i);
        Task(i);
        i := i + 1;
      }
    }

    /**
     * The part of `hash` before its loop: the password and salt go into their
     * regions, the lengths and counters are set, and PBKDF2 over the two regions
     * fills the block region.
     */
    method Seeding(passBin: seq<byte>, saltBin: seq<byte>, dk: nat)
      requires Valid() && Idle(st) && arena != null
      requires |passBin| <= MaxPassLen && |saltBin| <= MaxSaltLen && dk <= MaxDkLen
      modifies arena, this`passLen, this`saltLen, this`dkLen, this`doingCounter, this`doneCounter, this`st
      ensures st == Seed(heap, stretch, old(st), passBin, saltBin, dk)
      ensures Valid() && Idle(st) && st.started && st.doingCounter == 0
    {
      ghost var s0 := st;
      SeedArena(arena, s0.mem.value, layout, stretch, passBin, saltBin, Mul(blkLen, argP));
      passLen, saltLen, dkLen, doingCounter, doneCounter, st :=
        |passBin|, |saltBin|, DefaultDkLen(dk), 0, 0, Seed(heap, stretch, s0, passBin, saltBin, dk);
      SeedKeepsInv(heap, stretch, s0, passBin, saltBin, dk);
    }

    /**
     * `complete()`: run PBKDF2 over the password and the block region into the key
     * region, asking for at least 32 bytes, and hand the first dkLen bytes to
     * `oncomplete`. When every worker returned smix of its block, that key is the
     * reference derivation of the password and salt.
     */
    method Complete()
      requires Valid() && st.started && doneCounter == argP
      modifies arena, this`st
      ensures st == CompleteStep(heap, stretch, old(st))
      ensures Valid() && Idle(st)
      ensures HonestReplies(mix, old(st)) ==>
        st.events == old(st.events) + [CompleteCb(Derive(stretch, mix, st.costN, st.pass, st.salt, blkLen, argP, dkLen))]
    {
      ghost var s0 := st;
      var pass := Read(arena, s0.mem.value, layout.passPtr, passLen);
      var blocks := Read(arena, s0.mem.value, layout.blksPtr, Mul(blkLen, argP));
      var full := Stretch(stretch, pass, blocks, StretchLen(dkLen));
      assert full == KeyBytes(heap, stretch, s0);
      Write(arena, s0.mem.value, layout.dkPtr, full);
      st := CompleteStep(heap, stretch, s0);
      var dkBin := Read(arena, st.mem.value, layout.dkPtr, dkLen);
      assert st.events == s0.events + [CompleteCb(dkBin)];
      CompleteKeepsInv(heap, stretch, s0);
      if HonestReplies(mix, s0) {
        CompleteIsDerive(heap, stretch, mix, s0);
      }
    }

    /**
     * The `done` branch of the message handler: worker w's block goes back into
     * the slot of the index it was tagged with and the done counter moves on;
     * then either every block is back and `complete` runs, or, while blocks are
     * left, worker w is given the next one.
     */
    method OnDone(w: nat, output: seq<byte>)
      requires Valid() && w < |st.busy| && st.busy[w] && |output| == blkLen
      modifies arena, this`tags, this`doingCounter, this`doneCounter, this`st
      ensures st == DoneStep(heap, stretch, old(st), w, output)
      ensures Valid()
    {
      InvAnswerable(heap, stretch, st, w, output);
      RecordKeepsInv(heap, stretch, st, w, output);
      Collect(w, output);
      if doneCounter == argP {
        Complete();
      } else if doingCounter < argP {
        Task(w);
      }
    }

    /** The first half of the `done` branch: the block goes back into its slot and the done counter moves on. */
    method Collect(w: nat, output: seq<byte>)
      requires Coupled() && Fits(st) && w < |st.busy| && st.tags[w] < st.argP && |output| == blkLen
      modifies arena, this`doneCounter, this`st
      ensures st == Record(heap, stretch, old(st), w, output)
      ensures Coupled() && arena == old(arena)
    {
      ghost var s0 := st;
      RecordMem(heap, stretch, s0, w, output);
      var at := layout.blksPtr + Mul(blkLen, tags[w]);
      doneCounter, st := doneCounter + 1, Record(heap, stretch, s0, w, output);
      Write(arena, s0.mem.value, at, output);
    }

    /**
     * The `ready` branch: count one more ready worker, and call `onready` on the
     * reply that makes the count equal the thread count.
     */
    method OnReady()
      requires Valid()
      modifies this`readyCounter, this`st
      ensures st == ReadyStep(old(st))
      ensures Valid()
    {
      ghost var s0 := st;
      readyCounter := readyCounter + 1;
      if readyCounter == threads {
        st := s0.(readyCounter := readyCounter, events := s0.events + [ReadyCb]);
      } else {
        st := s0.(readyCounter := readyCounter);
      }
      InvIgnoresLogs(heap, stretch, s0, st);
    }

    /** The `fail` branch: report the allocation failure. */
    method OnFail()
      requires Valid()
      modifies this`st
      ensures st == FailStep(old(st))
      ensures Valid()
    {
      ghost var s0 := st;
      st := s0.(events := s0.events + [ErrorCb(AllocFailReason)]);
      InvIgnoresLogs(heap, stretch, s0, st);
    }

    /** The numeric fast case: answer worker w with `true` at once. */
    method OnPing(w: nat)
      requires Valid()
      modifies this`st
      ensures st == PingStep(old(st), w)
      ensures Valid()
    {
      ghost var s0 := st;
      st := s0.(outbox := s0.outbox + [AckMsg(w)]);
      InvIgnoresLogs(heap, stretch, s0, st);
    }

    /** `msgHander`: dispatch one message from worker w on its shape and its `state`. */
    method OnMessage(w: nat, msg: Incoming)
      requires Valid() && w < |tags|
      requires msg.Report? && msg.state == "done" ==> st.busy[w] && |msg.output| == blkLen
      modifies arena, this`tags, this`doingCounter, this`doneCounter, this`readyCounter, this`st
      ensures st == MessageStep(heap, stretch, old(st), w, msg)
      ensures Valid()
    {
      match msg {
        case Progress(_) =>
          OnPing(w);
        case Report(state, output) =>
          if state == "done" {
            OnDone(w, output);
          } else if state == "ready" {
            OnReady();
          } else if state == "fail" {
            OnFail();
          }
      }
    }

    /** `free()`: ask every worker of the pool to release its memory. */
    method Free()
      requires Valid()
      modifies this`st
      ensures st == FreeStep(old(st))
      ensures Valid()
    {
      ghost var s0 := st;
      var i := 0;
      while i < |tags|
        modifies this`st
        invariant 0 <= i <= |tags|
        invariant st == s0.(outbox := s0.outbox + FreeMsgs(i))
      {
        FreeMsgsSnoc(i);
        st := st.(outbox := st.outbox + [FreeMsg(i)]);
        i := i + 1;
      }
      InvIgnoresLogs(heap, stretch, s0, st);
    }

    /** `unload()`: the pool becomes empty and the buffer and the asm.js module are dropped. */
    method Unload()
      requires Valid()
      modifies this`tags, this`arena, this`unloaded, this`st
      ensures st == UnloadStep(old(st))
      ensures Valid()
    {
      UnloadKeepsInv(heap, stretch, st);
      tags, arena, unloaded, st := [], null, true, UnloadStep(st);
    }
  }
}
