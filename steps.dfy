/**
 * The coordinator's module-level state as one value, and each of its operations
 * (`config`, `hash`, `task`, `complete`, `free`, `unload` and the branches of the
 * worker message handler) as a step from one such value to the next. The class in
 * module WorkerMain performs these steps in place; the invariant, the dispatch
 * order and the final key are proved here, once, on values.
 */
module Steps {
  import opened Common
  import opened Threads
  import opened Arena
  import opened Blocks
  import opened Kdf

  /** What the coordinator posts to worker number `worker` of the pool. */
  datatype Outgoing =
    | ConfigMsg(worker: nat, n: nat, r: nat)
    | TaskMsg(worker: nat, input: seq<byte>)
    | AckMsg(worker: nat)
    | FreeMsg(worker: nat)

  /** The host callbacks, in the order the coordinator invokes them. */
  datatype Callback = ReadyCb | CompleteCb(dk: seq<byte>) | ErrorCb(reason: string)

  /** What a worker posts back: a bare number, or an object with a `state` and an `output`. */
  datatype Incoming = Progress(value: int) | Report(state: string, output: seq<byte>)

  const AllocFailReason: string := "memory alloc fail"

  /** `config` posts `{cmd: 'config', N, r}` to workers 0..t-1, in order. */
  function ConfigMsgs(t: nat, n: nat, r: nat): seq<Outgoing>
  {
    seq(t, (i: nat) => ConfigMsg(i, n, r))
  }

  /** `hash` hands block i to worker i, for the first t workers. */
  function TaskMsgs(blocks: seq<seq<byte>>, t: nat): seq<Outgoing>
    requires t <= |blocks|
  {
    seq(t, i requires 0 <= i < t => TaskMsg(i, blocks[i]))
  }

  /** `free` posts `{cmd: 'free'}` to every worker of the pool. */
  function FreeMsgs(t: nat): seq<Outgoing>
  {
    seq(t, (i: nat) => FreeMsg(i))
  }

  lemma ConfigMsgsSnoc(i: nat, n: nat, r: nat)
    ensures ConfigMsgs(i + 1, n, r) == ConfigMsgs(i, n, r) + [ConfigMsg(i, n, r)]
  {
    assert forall k :: 0 <= k < i ==> ConfigMsgs(i + 1, n, r)[k] == ConfigMsgs(i, n, r)[k];
  }

  /** One more round of the dispatch loop appends one task message to the log. */
  lemma TaskMsgsSnoc(log: seq<Outgoing>, blocks: seq<seq<byte>>, i: nat)
    requires i < |blocks|
    ensures log + TaskMsgs(blocks, i + 1) == log + TaskMsgs(blocks, i) + [TaskMsg(i, blocks[i])]
  {
    assert TaskMsgs(blocks, i + 1) == TaskMsgs(blocks, i) + [TaskMsg(i, blocks[i])] by {
      assert forall k :: 0 <= k < i ==> TaskMsgs(blocks, i + 1)[k] == TaskMsgs(blocks, i)[k];
    }
  }

  lemma FreeMsgsSnoc(i: nat)
    ensures FreeMsgs(i + 1) == FreeMsgs(i) + [FreeMsg(i)]
  {
    assert forall k :: 0 <= k < i ==> FreeMsgs(i + 1)[k] == FreeMsgs(i)[k];
  }

  /** The pool after `config`'s loop: the first n entries exist, new ones start as fill. */
  function Grow<T>(xs: seq<T>, n: nat, fill: T): (ys: seq<T>)
    ensures |ys| == Max(|xs|, n)
    ensures ys[..|xs|] == xs
    ensures forall i :: |xs| <= i < |ys| ==> ys[i] == fill
  {
    if |xs| >= n then xs else xs + seq(n - |xs|, _ => fill)
  }

  /** One more round of `config`'s loop appends one entry exactly when the pool is not yet that large. */
  lemma GrowStep<T>(xs: seq<T>, i: nat, fill: T)
    ensures Grow(xs, i + 1, fill) == if i >= |Grow(xs, i, fill)| then Grow(xs, i, fill) + [fill] else Grow(xs, i, fill)
  {
    if |xs| < i {
      assert seq(i + 1 - |xs|, _ => fill) == seq(i - |xs|, _ => fill) + [fill];
    }
  }

  /**
   * Everything the coordinator keeps. The first group are the module's own
   * variables (mAsmBuf as `mem`, the offsets, the lengths, the tag of each pooled
   * worker, the counters); the second group is bookkeeping no code reads: the
   * messages sent, the callbacks fired, the cost parameters, which workers hold a
   * task, and the password, salt, first-stretch blocks and replies of the current
   * `hash`, with `holders[k]` the worker block index k was handed to.
   */
  datatype State = State(
    mem: Option<seq<byte>>,
    layout: Layout,
    argP: nat,
    blkLen: nat,
    threads: nat,
    passLen: nat,
    saltLen: nat,
    dkLen: nat,
    tags: seq<nat>,
    readyCounter: nat,
    doingCounter: nat,
    doneCounter: nat,
    unloaded: bool,
    outbox: seq<Outgoing>,
    events: seq<Callback>,
    costN: nat,
    costR: nat,
    busy: seq<bool>,
    started: bool,
    pass: seq<byte>,
    salt: seq<byte>,
    seeded: seq<seq<byte>>,
    replies: seq<Reply>,
    holders: seq<nat>)

  /** `mAsmBuf.byteLength`, or None while there is no buffer. */
  function Size(mem: Option<seq<byte>>): Option<nat>
  {
    if mem.None? then None else Some(|mem.value|)
  }

  /** No worker holds a task it has not answered. */
  predicate Idle(s: State)
  {
    forall w :: 0 <= w < |s.busy| ==> !s.busy[w]
  }

  /** The blocks as they should now be in the arena: the first stretch with every reply applied. */
  function Slots(s: State): seq<seq<byte>>
  {
    ApplyDones(s.seeded, s.replies)
  }

  /** What `config` establishes: a buffer that holds the layout, and 1 <= threads <= P pooled workers. */
  predicate Planned(heap: nat, s: State)
  {
    && s.mem.Some?
    && 1 <= s.threads <= s.argP
    && s.threads <= |s.tags|
    && s.blkLen == 128 * s.costR
    && s.layout == PlanArena(heap, s.blkLen, s.argP)
    && s.layout.total <= |s.mem.value|
  }

  /**
   * The counters of a `hash`: done <= doing <= P, each of the indices 0..doing-1
   * was handed out once, and every reply answers a distinct index already handed
   * out with a block of the right length.
   */
  predicate Ledger(s: State)
  {
    && s.doneCounter == |s.replies| <= s.doingCounter <= s.argP
    && |s.holders| == s.doingCounter
    && |Answered(s.replies)| == |s.replies|
    && (forall k :: 0 <= k < |s.replies| ==>
          s.replies[k].index < s.doingCounter && |s.replies[k].bytes| == s.blkLen)
  }

  /**
   * A busy worker is one of the first `threads` and holds an unanswered index that
   * was handed to it, so no two busy workers hold the same index.
   */
  predicate Workers(s: State)
  {
    && |s.busy| == |s.tags|
    && (forall w :: 0 <= w < |s.busy| && s.busy[w] ==>
          && w < s.threads && s.tags[w] < s.doingCounter && s.tags[w] !in Answered(s.replies)
          && s.tags[w] < |s.holders| && s.holders[s.tags[w]] == w)
  }

  /** What holds from `hash` on: the password region, the block region and the counters agree. */
  predicate Deriving(heap: nat, stretch: StretchFn, s: State)
  {
    && Planned(heap, s)
    && 1 <= s.dkLen <= MaxDkLen
    && |s.pass| == s.passLen <= MaxPassLen
    && |s.salt| == s.saltLen <= MaxSaltLen
    && Region(s.mem.value, s.layout.passPtr, s.passLen) == s.pass
    && s.seeded == Split(Stretch(stretch, s.pass, s.salt, Mul(s.blkLen, s.argP)), s.blkLen, s.argP)
    && Ledger(s)
    && Uniform(Slots(s), s.blkLen)
    && Region(s.mem.value, s.layout.blksPtr, Mul(s.blkLen, s.argP)) == Flatten(Slots(s))
    && Workers(s)
  }

  /**
   * What the steps of `hash` need to be defined: a buffer that holds the four
   * regions of the layout one after the other, and a busy flag per pooled worker.
   */
  predicate Fits(s: State)
  {
    && s.mem.Some?
    && |s.busy| == |s.tags|
    && s.layout.saltPtr == s.layout.passPtr + MaxPassLen
    && s.layout.dkPtr == s.layout.saltPtr + MaxSaltLen
    && s.layout.blksPtr == s.layout.dkPtr + MaxDkLen
    && s.layout.blksPtr + Mul(s.blkLen, s.argP) <= |s.mem.value|
  }

  /** The coordinator's invariant. */
  predicate Inv(heap: nat, stretch: StretchFn, s: State)
  {
    var pool := |s.busy| == |s.tags| && (s.mem.None? ==> s.tags == []) && (s.unloaded ==> s.mem.None?);
    var arena := s.mem.Some? ==> Planned(heap, s);
    var phase := if s.started then Deriving(heap, stretch, s) else Idle(s);
    pool && arena && phase
  }

  /** Every reply so far is smix, with the configured N, of the block its worker was given. */
  predicate HonestReplies(mix: MixFn, s: State)
  {
    forall k :: 0 <= k < |s.replies| ==>
      s.replies[k].index < |s.seeded| && s.replies[k].bytes == mix(s.costN, s.seeded[s.replies[k].index])
  }

  /**
   * `config(N, r, P, thread)`: the thread count, the block length and the layout
   * are fixed, the buffer is replaced by a zeroed one only when it is missing or
   * smaller than the layout, the pool grows to `threads` workers with tag 0, the
   * ready counter restarts and the first `threads` workers are sent N and r.
   * `config` may run at any time, also while tasks are out (after a `fail`, say):
   * any `hash` in flight is abandoned, so no pooled worker counts as holding a task.
   */
  function ConfigStep(heap: nat, s: State, n: nat, r: nat, p: nat, thread: Option<nat>): (s': State)
    requires p >= 1
    requires thread.Some? ==> 1 <= thread.value <= p
    ensures s'.mem.Some? && |s'.mem.value| == ArenaSizeAfter(Size(s.mem), s'.layout.total)
    ensures s.mem.Some? ==> |s'.mem.value| >= |s.mem.value|
    ensures !Reallocates(Size(s.mem), s'.layout.total) ==> s'.mem == s.mem
    ensures Reallocates(Size(s.mem), s'.layout.total) ==> forall i :: 0 <= i < |s'.mem.value| ==> s'.mem.value[i] == 0
    ensures s'.threads == ThreadCount(p, thread) && s'.readyCounter == 0
    ensures s'.tags == Grow(s.tags, s'.threads, 0)
    ensures s'.outbox == s.outbox + ConfigMsgs(s'.threads, n, r)
  {
    var t := ThreadCount(p, thread);
    var layout := PlanArena(heap, 128 * r, p);
    var mem := if Reallocates(Size(s.mem), layout.total) then Some(Zeros(layout.total)) else s.mem;
    s.(mem := mem, layout := layout, argP := p, blkLen := 128 * r, threads := t,
       tags := Grow(s.tags, t, 0), busy := seq(Max(|s.busy|, t), _ => false), readyCounter := 0,
       outbox := s.outbox + ConfigMsgs(t, n, r), costN := n, costR := r, started := false)
  }

  /** `config` in any state, tasks out or not, leaves the coordinator planned and idle. */
  lemma ConfigKeepsInv(heap: nat, stretch: StretchFn, s: State, n: nat, r: nat, p: nat, thread: Option<nat>)
    requires Inv(heap, stretch, s) && !s.unloaded
    requires p >= 1
    requires thread.Some? ==> 1 <= thread.value <= p
    ensures Inv(heap, stretch, ConfigStep(heap, s, n, r, p, thread))
    ensures Idle(ConfigStep(heap, s, n, r, p, thread))
    ensures Planned(heap, ConfigStep(heap, s, n, r, p, thread))
  {
  }

  /**
   * `task(worker)`: worker w's tag becomes the doing counter, the counter moves
   * on by one, and a copy of the bytes of that block goes out to w.
   */
  function TaskStep(heap: nat, stretch: StretchFn, s: State, w: nat): (s': State)
    requires Fits(s) && w < |s.tags| && s.doingCounter < s.argP
    ensures s' == s.(tags := s'.tags, busy := s'.busy, doingCounter := s.doingCounter + 1,
                     outbox := s'.outbox, holders := s'.holders)
    ensures s'.tags == s.tags[w := s.doingCounter] && s'.busy == s.busy[w := true]
  {
    SlotBound(s.blkLen, s.doingCounter, s.argP);
    var ptr := s.layout.blksPtr + Mul(s.blkLen, s.doingCounter);
    var block := Region(s.mem.value, ptr, s.blkLen);
    s.(tags := s.tags[w := s.doingCounter], doingCounter := s.doingCounter + 1,
       busy := s.busy[w := true], outbox := s.outbox + [TaskMsg(w, block)],
       holders := s.holders + [w])
  }

  /** After `task` the counters and the pool still agree: the index handed out is new and no one else's. */
  lemma TaskKeepsLedger(heap: nat, stretch: StretchFn, s: State, w: nat)
    requires Inv(heap, stretch, s) && s.started
    requires w < s.threads && !s.busy[w]
    requires s.doingCounter < s.argP
    ensures Ledger(TaskStep(heap, stretch, s, w)) && Workers(TaskStep(heap, stretch, s, w))
  {
    var id := s.doingCounter;
    var s' := TaskStep(heap, stretch, s, w);
    assert id !in Answered(s.replies) by {
      assert forall k :: 0 <= k < |s.replies| ==> s.replies[k].index != id;
    }
  }

  /** The block `task` copies out is still the block the first PBKDF2 call produced: no reply has answered it yet. */
  lemma TaskSendsSeed(heap: nat, stretch: StretchFn, s: State, w: nat)
    requires Inv(heap, stretch, s) && s.started
    requires w < s.threads && !s.busy[w]
    requires s.doingCounter < s.argP
    ensures TaskStep(heap, stretch, s, w).outbox == s.outbox + [TaskMsg(w, s.seeded[s.doingCounter])]
  {
    var id := s.doingCounter;
    SlotBound(s.blkLen, id, s.argP);
    RegionSlot(s.mem.value, s.layout.blksPtr, Slots(s), s.blkLen, id);
    LookupMissing(s.replies, id);
    ApplyDonesAt(s.seeded, s.replies, id);
  }

  /** `task` keeps the invariant and hands out the first-stretch block of the index it assigns. */
  lemma TaskKeepsInv(heap: nat, stretch: StretchFn, s: State, w: nat)
    requires Inv(heap, stretch, s) && s.started
    requires w < s.threads && !s.busy[w]
    requires s.doingCounter < s.argP
    ensures Inv(heap, stretch, TaskStep(heap, stretch, s, w))
    ensures TaskStep(heap, stretch, s, w).outbox == s.outbox + [TaskMsg(w, s.seeded[s.doingCounter])]
  {
    TaskKeepsLedger(heap, stretch, s, w);
    TaskSendsSeed(heap, stretch, s, w);
  }

  /** The first `i` rounds of `hash`'s dispatch loop: `task` for workers 0..i-1 in turn. */
  function TaskLoop(heap: nat, stretch: StretchFn, s: State, i: nat): (s': State)
    requires Fits(s) && s.doingCounter == 0
    requires i <= s.threads <= |s.tags| && s.threads <= s.argP
    ensures s' == s.(tags := s'.tags, busy := s'.busy, doingCounter := i,
                     outbox := s'.outbox, holders := s'.holders)
    ensures |s'.tags| == |s.tags| && |s'.busy| == |s.busy|
    decreases i
  {
    if i == 0 then s
    else TaskStep(heap, stretch, TaskLoop(heap, stretch, s, i - 1), i - 1)
  }

  /** Tagging worker i with i extends the ascending prefix of the tags by one. */
  lemma TagNext(tags: seq<nat>, i: nat)
    requires i < |tags|
    ensures (Ascending(i) + tags[i..])[i := i] == Ascending(i + 1) + tags[i + 1..]
  {
    var a := (Ascending(i) + tags[i..])[i := i];
    var b := Ascending(i + 1) + tags[i + 1..];
    forall k | 0 <= k < |tags|
      ensures a[k] == b[k]
    {
      if k > i {
        assert a[k] == tags[i..][k - i] == tags[k];
        assert b[k] == tags[i + 1..][k - i - 1] == tags[k];
      }
    }
  }

  /** One more round of the dispatch loop hands the next index to the next worker. */
  lemma AscendingSnoc(log: seq<nat>, i: nat)
    ensures log + Ascending(i + 1) == log + Ascending(i) + [i]
  {
    assert Ascending(i + 1) == Ascending(i) + [i];
  }

  /**
   * After i rounds workers 0..i-1 are tagged 0..i-1 and busy, block j went to
   * worker j, and the other workers keep their tags and their flags.
   */
  lemma {:induction false} TaskLoopTags(heap: nat, stretch: StretchFn, s: State, i: nat)
    requires Fits(s) && s.doingCounter == 0
    requires i <= s.threads <= |s.tags| && s.threads <= s.argP
    ensures var s' := TaskLoop(heap, stretch, s, i);
      && s'.tags == Ascending(i) + s.tags[i..]
      && s'.holders == s.holders + Ascending(i)
      && forall w :: 0 <= w < |s'.busy| ==> s'.busy[w] == (w < i || s.busy[w])
    decreases i
  {
    if i == 0 {
      assert Ascending(0) + s.tags[0..] == s.tags;
    } else {
      TaskLoopTags(heap, stretch, s, i - 1);
      TagNext(s.tags, i - 1);
      AscendingSnoc(s.holders, i - 1);
    }
  }

  /** Before round i of the loop worker i is still free, the doing counter is i, and round i is one `task` for worker i. */
  lemma TaskLoopStep(heap: nat, stretch: StretchFn, s: State, i: nat)
    requires Fits(s) && Idle(s) && s.doingCounter == 0
    requires i < s.threads <= |s.tags| && s.threads <= s.argP
    ensures var prev := TaskLoop(heap, stretch, s, i);
      && prev.doingCounter == i && prev.started == s.started && prev.seeded == s.seeded
      && prev.threads == s.threads && prev.argP == s.argP
      && i < |prev.busy| && !prev.busy[i]
      && TaskLoop(heap, stretch, s, i + 1) == TaskStep(heap, stretch, prev, i)
  {
    TaskLoopTags(heap, stretch, s, i);
  }

  /**
   * Starting from an idle coordinator the loop keeps the invariant: workers
   * 0..i-1 hold indices 0..i-1, which nobody has answered yet.
   */
  lemma TaskLoopKeepsInv(heap: nat, stretch: StretchFn, s: State, i: nat)
    requires Inv(heap, stretch, s) && s.started && Idle(s) && s.doingCounter == 0
    requires i <= s.threads
    ensures Inv(heap, stretch, TaskLoop(heap, stretch, s, i))
  {
    TaskLoopTags(heap, stretch, s, i);
    var s' := TaskLoop(heap, stretch, s, i);
    assert s.replies == [] && s.holders == [];
    assert Slots(s') == Slots(s);
    forall w | 0 <= w < |s'.busy| && s'.busy[w]
      ensures w < i && s'.tags[w] == w && s'.holders[w] == w
    {
      assert !s.busy[w];
    }
  }

  /**
   * The loop sends worker j the bytes of block j of the block region, which holds
   * the blocks bs one after the other.
   */
  lemma {:induction false} TaskLoopOutbox(heap: nat, stretch: StretchFn, s: State, i: nat, bs: seq<seq<byte>>)
    requires Fits(s) && s.doingCounter == 0
    requires i <= s.threads <= |s.tags| && s.threads <= s.argP
    requires |bs| == s.argP && Uniform(bs, s.blkLen)
    requires Region(s.mem.value, s.layout.blksPtr, Mul(s.blkLen, s.argP)) == Flatten(bs)
    ensures TaskLoop(heap, stretch, s, i).outbox == s.outbox + TaskMsgs(bs, i)
    decreases i
  {
    if i == 0 {
      assert TaskMsgs(bs, 0) == [];
    } else {
      TaskLoopOutbox(heap, stretch, s, i - 1, bs);
      var prev := TaskLoop(heap, stretch, s, i - 1);
      assert prev.mem == s.mem && prev.layout == s.layout && prev.blkLen == s.blkLen && prev.doingCounter == i - 1;
      RegionSlot(s.mem.value, s.layout.blksPtr, bs, s.blkLen, i - 1);
      assert TaskStep(heap, stretch, prev, i - 1).outbox == prev.outbox + [TaskMsg(i - 1, bs[i - 1])];
      TaskMsgsSnoc(s.outbox, bs, i - 1);
    }
  }

  /** Starting from an idle coordinator the loop hands block j of the first stretch to worker j, in worker order. */
  lemma TaskLoopSends(heap: nat, stretch: StretchFn, s: State, i: nat)
    requires Inv(heap, stretch, s) && s.started && Idle(s) && s.doingCounter == 0
    requires i <= s.threads
    ensures i <= |s.seeded| && TaskLoop(heap, stretch, s, i).outbox == s.outbox + TaskMsgs(s.seeded, i)
  {
    assert s.replies == [];
    TaskLoopOutbox(heap, stretch, s, i, s.seeded);
  }

  /** `hash`'s two copies: the password and the salt written into their regions. */
  function Copied(m: seq<byte>, l: Layout, passBin: seq<byte>, saltBin: seq<byte>): (m': seq<byte>)
    requires l.passPtr + |passBin| <= |m| && l.saltPtr + |saltBin| <= |m|
    ensures |m'| == |m|
  {
    Splice(Splice(m, l.passPtr, passBin), l.saltPtr, saltBin)
  }

  /** `hash`'s first PBKDF2 call: n bytes of PBKDF2 over the password region and the salt region. */
  function SeedBytes(stretch: StretchFn, m: seq<byte>, l: Layout, passLen: nat, saltLen: nat, n: nat): (out: seq<byte>)
    requires l.passPtr + passLen <= |m| && l.saltPtr + saltLen <= |m|
    ensures |out| == n
  {
    Stretch(stretch, Region(m, l.passPtr, passLen), Region(m, l.saltPtr, saltLen), n)
  }

  /**
   * The part of `hash` before the dispatch loop: password and salt are copied into
   * their regions, the lengths are recorded, the key length defaults to 64, both
   * counters restart, and PBKDF2 over the two regions fills the block region.
   */
  function Seed(heap: nat, stretch: StretchFn, s: State, passBin: seq<byte>, saltBin: seq<byte>, dk: nat): (s': State)
    requires Fits(s)
    requires |passBin| <= MaxPassLen && |saltBin| <= MaxSaltLen
    ensures s'.started && s'.doingCounter == 0 && s'.doneCounter == 0 && s'.replies == [] && s'.holders == []
    ensures s'.dkLen == DefaultDkLen(dk) && s'.passLen == |passBin| && s'.saltLen == |saltBin|
    ensures s'.layout == s.layout && s'.tags == s.tags && s'.busy == s.busy && s'.outbox == s.outbox
    ensures s'.mem.Some? && |s'.mem.value| == |s.mem.value|
  {
    var l := s.layout;
    var m1 := Copied(s.mem.value, l, passBin, saltBin);
    var input := SeedBytes(stretch, m1, l, |passBin|, |saltBin|, Mul(s.blkLen, s.argP));
    s.(mem := Some(Splice(m1, l.blksPtr, input)), passLen := |passBin|, saltLen := |saltBin|,
       dkLen := DefaultDkLen(dk), doingCounter := 0, doneCounter := 0,
       pass := passBin, salt := saltBin, seeded := Split(input, s.blkLen, s.argP),
       replies := [], holders := [], started := true)
  }

  /** The two copies put password and salt in their regions, so the first PBKDF2 call reads exactly them. */
  lemma CopiedRegions(m: seq<byte>, l: Layout, stretch: StretchFn, passBin: seq<byte>, saltBin: seq<byte>, n: nat)
    requires l.saltPtr == l.passPtr + MaxPassLen && l.saltPtr + MaxSaltLen <= |m|
    requires |passBin| <= MaxPassLen && |saltBin| <= MaxSaltLen
    ensures var m1 := Copied(m, l, passBin, saltBin);
      && Region(m1, l.passPtr, |passBin|) == passBin
      && Region(m1, l.saltPtr, |saltBin|) == saltBin
      && SeedBytes(stretch, m1, l, |passBin|, |saltBin|, n) == Stretch(stretch, passBin, saltBin, n)
  {
    SpliceKeeps(Splice(m, l.passPtr, passBin), l.saltPtr, saltBin, l.passPtr, |passBin|);
  }

  /** After the seeding the password and salt sit in their regions and the block region is PBKDF2 of them. */
  lemma SeedRegions(heap: nat, stretch: StretchFn, s: State, passBin: seq<byte>, saltBin: seq<byte>, dk: nat)
    requires Fits(s)
    requires |passBin| <= MaxPassLen && |saltBin| <= MaxSaltLen
    ensures var s' := Seed(heap, stretch, s, passBin, saltBin, dk);
      var input := Stretch(stretch, passBin, saltBin, Mul(s.blkLen, s.argP));
      && s'.mem.Some?
      && Region(s'.mem.value, s.layout.passPtr, |passBin|) == passBin
      && Region(s'.mem.value, s.layout.saltPtr, |saltBin|) == saltBin
      && Region(s'.mem.value, s.layout.blksPtr, Mul(s.blkLen, s.argP)) == input
      && s'.seeded == Split(input, s.blkLen, s.argP)
  {
    var l := s.layout;
    var m1 := Copied(s.mem.value, l, passBin, saltBin);
    var input := Stretch(stretch, passBin, saltBin, Mul(s.blkLen, s.argP));
    CopiedRegions(s.mem.value, l, stretch, passBin, saltBin, Mul(s.blkLen, s.argP));
    SpliceKeeps(m1, l.blksPtr, input, l.passPtr, |passBin|);
    SpliceKeeps(m1, l.blksPtr, input, l.saltPtr, |saltBin|);
    assert Seed(heap, stretch, s, passBin, saltBin, dk).mem == Some(Splice(m1, l.blksPtr, input));
  }

  /** The seeding starts a derivation that satisfies the invariant, with no worker busy. */
  lemma SeedKeepsInv(heap: nat, stretch: StretchFn, s: State, passBin: seq<byte>, saltBin: seq<byte>, dk: nat)
    requires Inv(heap, stretch, s) && Idle(s) && s.mem.Some?
    requires |passBin| <= MaxPassLen && |saltBin| <= MaxSaltLen && dk <= MaxDkLen
    ensures Inv(heap, stretch, Seed(heap, stretch, s, passBin, saltBin, dk))
    ensures Idle(Seed(heap, stretch, s, passBin, saltBin, dk))
  {
    SeedRegions(heap, stretch, s, passBin, saltBin, dk);
    var s' := Seed(heap, stretch, s, passBin, saltBin, dk);
    assert Slots(s') == s'.seeded;
  }

  /**
   * `hash(pass, salt, dkLen)`: the seeding, then `task` for each of the first
   * `threads` workers in turn.
   */
  function HashStep(heap: nat, stretch: StretchFn, s: State, passBin: seq<byte>, saltBin: seq<byte>, dk: nat): (s': State)
    requires Inv(heap, stretch, s) && Idle(s) && s.mem.Some?
    requires |passBin| <= MaxPassLen && |saltBin| <= MaxSaltLen && dk <= MaxDkLen
    ensures s'.started && s'.doingCounter == s.threads && s'.doneCounter == 0 && s'.replies == []
    ensures s'.dkLen == DefaultDkLen(dk) && s'.layout == s.layout && |s'.tags| == |s.tags|
    ensures s'.mem.Some? && |s'.mem.value| == |s.mem.value| && s'.events == s.events
  {
    var s1 := Seed(heap, stretch, s, passBin, saltBin, dk);
    SeedKeepsInv(heap, stretch, s, passBin, saltBin, dk);
    TaskLoop(heap, stretch, s1, s.threads)
  }

  /**
   * After `hash` the password and salt sit in their regions, the key length is
   * set, no reply is in, block i went to worker i for each i below `threads`,
   * those workers are busy and the others idle, and the invariant holds.
   */
  lemma HashEffect(heap: nat, stretch: StretchFn, s: State, passBin: seq<byte>, saltBin: seq<byte>, dk: nat)
    requires Inv(heap, stretch, s) && Idle(s) && s.mem.Some?
    requires |passBin| <= MaxPassLen && |saltBin| <= MaxSaltLen && dk <= MaxDkLen
    ensures var s' := HashStep(heap, stretch, s, passBin, saltBin, dk);
      && Inv(heap, stretch, s') && s'.started
      && s'.pass == passBin && s'.salt == saltBin && s'.dkLen == DefaultDkLen(dk)
      && s'.seeded == Split(Stretch(stretch, passBin, saltBin, Mul(s.blkLen, s.argP)), s.blkLen, s.argP)
      && Region(s'.mem.value, s.layout.passPtr, |passBin|) == passBin
      && Region(s'.mem.value, s.layout.saltPtr, |saltBin|) == saltBin
      && s'.doingCounter == s.threads && s'.doneCounter == 0 && s'.replies == []
      && s'.holders == Ascending(s.threads)
      && (forall w :: 0 <= w < |s'.busy| ==> s'.busy[w] == (w < s.threads))
      && s'.outbox == s.outbox + TaskMsgs(s'.seeded, s.threads)
  {
    var s1 := Seed(heap, stretch, s, passBin, saltBin, dk);
    SeedKeepsInv(heap, stretch, s, passBin, saltBin, dk);
    SeedRegions(heap, stretch, s, passBin, saltBin, dk);
    TaskLoopTags(heap, stretch, s1, s.threads);
    TaskLoopKeepsInv(heap, stretch, s1, s.threads);
    TaskLoopSends(heap, stretch, s1, s.threads);
  }

  /** Once every block has been answered no worker holds a task, and every index was handed out. */
  lemma DoneMeansIdle(heap: nat, stretch: StretchFn, s: State)
    requires Inv(heap, stretch, s) && s.started && s.doneCounter == s.argP
    ensures Idle(s)
    ensures s.doingCounter == s.argP && |s.holders| == s.argP
  {
    forall w | 0 <= w < |s.busy|
      ensures !s.busy[w]
    {
      if s.busy[w] {
        Covers(s.replies, s.argP, s.tags[w]);
        assert false;
      }
    }
  }

  /**
   * What `complete`'s PBKDF2 call writes into the key region: max(dkLen, 32) bytes
   * of PBKDF2 over the password region and the block region.
   */
  function KeyBytes(heap: nat, stretch: StretchFn, s: State): (full: seq<byte>)
    requires Fits(s) && s.passLen <= MaxPassLen
    ensures |full| == StretchLen(s.dkLen)
  {
    var l := s.layout;
    var m := s.mem.value;
    Stretch(stretch, Region(m, l.passPtr, s.passLen), Region(m, l.blksPtr, Mul(s.blkLen, s.argP)),
            StretchLen(s.dkLen))
  }

  /** During a derivation the two regions PBKDF2 reads hold the password and the current blocks. */
  lemma KeyBytesRead(heap: nat, stretch: StretchFn, s: State)
    requires Inv(heap, stretch, s) && s.started
    ensures KeyBytes(heap, stretch, s) == Stretch(stretch, s.pass, Flatten(Slots(s)), StretchLen(s.dkLen))
  {
  }

  /**
   * `complete()`: PBKDF2 over the password region and the block region, asking
   * for max(dkLen, 32) bytes into the key region; `oncomplete` is handed the first
   * dkLen bytes of that region.
   */
  function CompleteStep(heap: nat, stretch: StretchFn, s: State): (s': State)
    requires Fits(s) && s.passLen <= MaxPassLen && s.dkLen <= MaxDkLen
    ensures s'.mem.Some? && |s'.mem.value| == |s.mem.value|
    ensures forall k :: 0 <= k < |s.mem.value| && !(s.layout.dkPtr <= k < s.layout.dkPtr + StretchLen(s.dkLen)) ==>
      s'.mem.value[k] == s.mem.value[k]
  {
    var l := s.layout;
    var full := KeyBytes(heap, stretch, s);
    var m' := Splice(s.mem.value, l.dkPtr, full);
    s.(mem := Some(m'), events := s.events + [CompleteCb(Region(m', l.dkPtr, s.dkLen))])
  }

  /** During a derivation `complete` hands `oncomplete` the first dkLen bytes of PBKDF2 over the password and the blocks. */
  lemma CompleteDelivers(heap: nat, stretch: StretchFn, s: State)
    requires Inv(heap, stretch, s) && s.started
    ensures CompleteStep(heap, stretch, s).events == s.events + [CompleteCb(FinalKey(stretch, s.pass, Flatten(Slots(s)), s.dkLen))]
  {
    KeyBytesRead(heap, stretch, s);
    var full := KeyBytes(heap, stretch, s);
    var m' := Splice(s.mem.value, s.layout.dkPtr, full);
    RegionPrefix(m', s.layout.dkPtr, |full|, s.dkLen);
  }

  /** `complete` touches neither the password nor the block region, and leaves every worker idle. */
  lemma CompleteKeepsInv(heap: nat, stretch: StretchFn, s: State)
    requires Inv(heap, stretch, s) && s.started && s.doneCounter == s.argP
    ensures Inv(heap, stretch, CompleteStep(heap, stretch, s))
    ensures Idle(CompleteStep(heap, stretch, s))
  {
    DoneMeansIdle(heap, stretch, s);
    var l := s.layout;
    var m := s.mem.value;
    var full := KeyBytes(heap, stretch, s);
    SpliceKeeps(m, l.dkPtr, full, l.passPtr, s.passLen);
    SpliceKeeps(m, l.dkPtr, full, l.blksPtr, Mul(s.blkLen, s.argP));
    assert CompleteStep(heap, stretch, s).mem == Some(Splice(m, l.dkPtr, full));
  }

  /**
   * Whatever order the P replies came in, when every worker returned smix of its
   * block the block region holds smix of every first-stretch block.
   */
  lemma FinishedBlocks(heap: nat, stretch: StretchFn, mix: MixFn, s: State)
    requires Inv(heap, stretch, s) && s.started && s.doneCounter == s.argP
    requires HonestReplies(mix, s)
    ensures Slots(s) == MixEach(mix, s.costN, s.seeded)
    ensures Region(s.mem.value, s.layout.blksPtr, Mul(s.blkLen, s.argP)) == Flatten(MixEach(mix, s.costN, s.seeded))
  {
    AllDone(s.seeded, s.replies, MixEach(mix, s.costN, s.seeded));
  }

  /** With honest workers the key `complete` delivers is the reference scrypt derivation. */
  lemma CompleteIsDerive(heap: nat, stretch: StretchFn, mix: MixFn, s: State)
    requires Inv(heap, stretch, s) && s.started && s.doneCounter == s.argP
    requires HonestReplies(mix, s)
    ensures CompleteStep(heap, stretch, s).events
      == s.events + [CompleteCb(Derive(stretch, mix, s.costN, s.pass, s.salt, s.blkLen, s.argP, s.dkLen))]
  {
    CompleteDelivers(heap, stretch, s);
    FinishedBlocks(heap, stretch, mix, s);
  }

  /**
   * What the `done` branch needs to be defined: the layout fits the buffer, the
   * password and the key fit their regions, worker w is tagged with one of the P
   * indices and its reply is one block long.
   */
  predicate Answerable(s: State, w: nat, output: seq<byte>)
  {
    && Fits(s) && s.passLen <= MaxPassLen && s.dkLen <= MaxDkLen
    && w < |s.busy| && s.tags[w] < s.argP && |output| == s.blkLen
  }

  /** Under the invariant a busy worker's reply of one block is answerable, and a derivation is under way. */
  lemma InvAnswerable(heap: nat, stretch: StretchFn, s: State, w: nat, output: seq<byte>)
    requires Inv(heap, stretch, s) && w < |s.busy| && s.busy[w] && |output| == s.blkLen
    ensures Answerable(s, w, output) && s.started
  {
  }

  /**
   * The first half of the `done` branch: worker w's bytes are copied into the slot
   * of the index it was tagged with, and the done counter moves on by one.
   */
  function Record(heap: nat, stretch: StretchFn, s: State, w: nat, output: seq<byte>): (s': State)
    requires Fits(s) && w < |s.busy| && s.tags[w] < s.argP && |output| == s.blkLen
    ensures s'.replies == s.replies + [Reply(s.tags[w], output)]
  {
    var id := s.tags[w];
    SlotBound(s.blkLen, id, s.argP);
    s.(mem := Some(Splice(s.mem.value, s.layout.blksPtr + Mul(s.blkLen, id), output)),
       busy := s.busy[w := false], replies := s.replies + [Reply(id, output)],
       doneCounter := s.doneCounter + 1)
  }

  /** Recording a reply copies its bytes into the slot of the index the worker held, and counts it. */
  lemma RecordMem(heap: nat, stretch: StretchFn, s: State, w: nat, output: seq<byte>)
    requires Fits(s) && w < |s.busy| && s.tags[w] < s.argP && |output| == s.blkLen
    ensures s.layout.blksPtr + Mul(s.blkLen, s.tags[w]) + |output| <= |s.mem.value|
    ensures Record(heap, stretch, s, w, output).mem
      == Some(Splice(s.mem.value, s.layout.blksPtr + Mul(s.blkLen, s.tags[w]), output))
    ensures Record(heap, stretch, s, w, output).doneCounter == s.doneCounter + 1
  {
    SlotBound(s.blkLen, s.tags[w], s.argP);
  }

  /** `complete` changes the buffer only by the copy of the key bytes into the key region. */
  lemma CompleteMem(heap: nat, stretch: StretchFn, s: State)
    requires Fits(s) && s.passLen <= MaxPassLen && s.dkLen <= MaxDkLen
    ensures s.layout.dkPtr + StretchLen(s.dkLen) <= s.layout.blksPtr
    ensures CompleteStep(heap, stretch, s).mem == Some(Splice(s.mem.value, s.layout.dkPtr, KeyBytes(heap, stretch, s)))
  {
  }

  /** The last reply is copied into its slot, then `complete` copies the key bytes into the key region. */
  lemma LastMem(heap: nat, stretch: StretchFn, s: State, w: nat, output: seq<byte>)
    requires Answerable(s, w, output)
    requires s.doneCounter + 1 == s.argP
    ensures var at := s.layout.blksPtr + Mul(s.blkLen, s.tags[w]);
      var s1 := Record(heap, stretch, s, w, output);
      && at + s.blkLen <= |s.mem.value|
      && Fits(s1) && s1.dkLen == s.dkLen && s1.layout == s.layout
      && s.layout.dkPtr + StretchLen(s.dkLen) <= s.layout.blksPtr
      && DoneStep(heap, stretch, s, w, output).mem.Some?
      && DoneStep(heap, stretch, s, w, output).mem.value
         == Splice(Splice(s.mem.value, at, output), s.layout.dkPtr, KeyBytes(heap, stretch, s1))
  {
    RecordMem(heap, stretch, s, w, output);
    var s1 := Record(heap, stretch, s, w, output);
    CompleteMem(heap, stretch, s1);
  }

  /** When the reply is the last one, `complete` writes the key region and leaves the slot just written alone. */
  lemma LastWritesSlot(heap: nat, stretch: StretchFn, s: State, w: nat, output: seq<byte>)
    requires Answerable(s, w, output)
    requires s.doneCounter + 1 == s.argP
    ensures var s' := DoneStep(heap, stretch, s, w, output);
      var at := s.layout.blksPtr + Mul(s.blkLen, s.tags[w]);
      && s'.mem.Some? && |s'.mem.value| == |s.mem.value|
      && at + s.blkLen <= |s.mem.value|
      && Region(s'.mem.value, at, s.blkLen) == output
      && (forall k :: 0 <= k < |s.mem.value| && !(at <= k < at + s.blkLen)
            && !(s.layout.dkPtr <= k < s.layout.dkPtr + StretchLen(s.dkLen))
            ==> s'.mem.value[k] == s.mem.value[k])
  {
    LastMem(heap, stretch, s, w, output);
    var at := s.layout.blksPtr + Mul(s.blkLen, s.tags[w]);
    var full := KeyBytes(heap, stretch, Record(heap, stretch, s, w, output));
    SpliceTwice(s.mem.value, at, s.blkLen, output, s.layout.dkPtr, StretchLen(s.dkLen), full);
  }

  /** When more replies are due, the reply's bytes are the only change to the buffer. */
  lemma NextWritesSlot(heap: nat, stretch: StretchFn, s: State, w: nat, output: seq<byte>)
    requires Answerable(s, w, output)
    requires s.doneCounter + 1 != s.argP
    ensures var s' := DoneStep(heap, stretch, s, w, output);
      var at := s.layout.blksPtr + Mul(s.blkLen, s.tags[w]);
      && at + s.blkLen <= |s.mem.value|
      && s'.mem == Some(Splice(s.mem.value, at, output))
  {
    RecordMem(heap, stretch, s, w, output);
    var s1 := Record(heap, stretch, s, w, output);
    if s1.doingCounter < s1.argP {
      assert TaskStep(heap, stretch, s1, w).mem == s1.mem;
    }
  }

  /** Recording a reply writes its bytes into its slot of the block region and nowhere else. */
  lemma RecordBlocks(heap: nat, stretch: StretchFn, s: State, w: nat, output: seq<byte>)
    requires Inv(heap, stretch, s) && w < |s.busy| && s.busy[w] && |output| == s.blkLen
    ensures var s' := Record(heap, stretch, s, w, output);
      && Slots(s') == Slots(s)[s.tags[w] := output]
      && Uniform(Slots(s'), s.blkLen)
      && Region(s'.mem.value, s.layout.passPtr, s.passLen) == s.pass
      && Region(s'.mem.value, s.layout.blksPtr, Mul(s.blkLen, s.argP)) == Flatten(Slots(s'))
  {
    var id := s.tags[w];
    var l := s.layout;
    SlotBound(s.blkLen, id, s.argP);
    ApplyDonesSnoc(s.seeded, s.replies, Reply(id, output));
    RegionSlotWrite(s.mem.value, l.blksPtr, Slots(s), s.blkLen, id, output);
    SpliceKeeps(s.mem.value, l.blksPtr + Mul(s.blkLen, id), output, l.passPtr, s.passLen);
  }

  /** Recording a reply keeps the invariant: its index was handed out and not answered before. */
  lemma RecordKeepsInv(heap: nat, stretch: StretchFn, s: State, w: nat, output: seq<byte>)
    requires Inv(heap, stretch, s) && w < |s.busy| && s.busy[w] && |output| == s.blkLen
    ensures var s' := Record(heap, stretch, s, w, output);
      && Inv(heap, stretch, s') && s'.started && w < s'.threads && !s'.busy[w]
      && Slots(s') == Slots(s)[s.tags[w] := output]
  {
    var id := s.tags[w];
    var s' := Record(heap, stretch, s, w, output);
    RecordBlocks(heap, stretch, s, w, output);
    FewerAnswered(s.replies, s.doingCounter, id);
    AnswerNew(s.replies, Reply(id, output));
    forall v | 0 <= v < |s'.busy| && s'.busy[v]
      ensures s'.tags[v] !in Answered(s'.replies)
    {
      assert s.busy[v] && v != w;
      assert s.holders[s.tags[v]] == v && s.holders[s.tags[w]] == w;
    }
  }

  /**
   * The `done` branch of the message handler: record the reply, then run
   * `complete` when the done counter reaches P, or else give worker w the next
   * block while blocks are left.
   */
  function DoneStep(heap: nat, stretch: StretchFn, s: State, w: nat, output: seq<byte>): (s': State)
    requires Answerable(s, w, output)
    ensures s'.doneCounter == s.doneCounter + 1 && s'.replies == s.replies + [Reply(s.tags[w], output)]
    ensures s'.layout == s.layout && s'.argP == s.argP && s'.threads == s.threads && s'.unloaded == s.unloaded
    ensures s'.readyCounter == s.readyCounter
  {
    var s1 := Record(heap, stretch, s, w, output);
    if s1.doneCounter == s1.argP then CompleteStep(heap, stretch, s1)
    else if s1.doingCounter < s1.argP then TaskStep(heap, stretch, s1, w)
    else s1
  }

  /** Every `done` reply the handler accepts keeps the invariant and is recorded against the index of its worker. */
  lemma DoneKeepsInv(heap: nat, stretch: StretchFn, s: State, w: nat, output: seq<byte>)
    requires Inv(heap, stretch, s) && w < |s.busy| && s.busy[w] && |output| == s.blkLen
    ensures var s' := DoneStep(heap, stretch, s, w, output);
      && Inv(heap, stretch, s') && s'.started
      && s'.doneCounter == s.doneCounter + 1
      && s'.replies == s.replies + [Reply(s.tags[w], output)]
      && Slots(s') == Slots(s)[s.tags[w] := output]
  {
    var s1 := Record(heap, stretch, s, w, output);
    RecordKeepsInv(heap, stretch, s, w, output);
    if s1.doneCounter == s1.argP {
      CompleteKeepsInv(heap, stretch, s1);
    } else if s1.doingCounter < s1.argP {
      TaskKeepsInv(heap, stretch, s1, w);
    }
  }

  /**
   * The reply that makes the done counter reach P fires `oncomplete` with the key
   * derived from the blocks, this reply included, and leaves every worker idle
   * and the pool and the messages as they were.
   */
  lemma DoneCompletes(heap: nat, stretch: StretchFn, s: State, w: nat, output: seq<byte>)
    requires Inv(heap, stretch, s) && w < |s.busy| && s.busy[w] && |output| == s.blkLen
    requires s.doneCounter + 1 == s.argP
    ensures var s' := DoneStep(heap, stretch, s, w, output);
      && Idle(s') && s'.tags == s.tags && s'.doingCounter == s.doingCounter && s'.outbox == s.outbox
      && s'.events == s.events + [CompleteCb(FinalKey(stretch, s.pass, Flatten(Slots(s)[s.tags[w] := output]), s.dkLen))]
  {
    var s1 := Record(heap, stretch, s, w, output);
    RecordKeepsInv(heap, stretch, s, w, output);
    CompleteKeepsInv(heap, stretch, s1);
    CompleteDelivers(heap, stretch, s1);
  }

  /**
   * Any other reply fires no callback; while blocks are left worker w is tagged
   * with the next index and sent its first-stretch block, and once none are left
   * worker w just becomes idle.
   */
  lemma DoneContinues(heap: nat, stretch: StretchFn, s: State, w: nat, output: seq<byte>)
    requires Inv(heap, stretch, s) && w < |s.busy| && s.busy[w] && |output| == s.blkLen
    requires s.doneCounter + 1 != s.argP
    ensures var s' := DoneStep(heap, stretch, s, w, output);
      && s'.events == s.events
      && (s.doingCounter < s.argP ==>
            && s'.tags == s.tags[w := s.doingCounter] && s'.busy == s.busy && s'.doingCounter == s.doingCounter + 1
            && s'.outbox == s.outbox + [TaskMsg(w, s.seeded[s.doingCounter])])
      && (s.doingCounter == s.argP ==>
            && s'.tags == s.tags && s'.busy == s.busy[w := false]
            && s'.doingCounter == s.doingCounter && s'.outbox == s.outbox)
  {
    var s1 := Record(heap, stretch, s, w, output);
    RecordKeepsInv(heap, stretch, s, w, output);
    if s1.doingCounter < s1.argP {
      TaskSendsSeed(heap, stretch, s1, w);
      assert s1.busy[w := true] == s.busy;
    }
  }

  /**
   * On `done` the arena changes only in the slot of the answered index, which now
   * holds the returned bytes, and, when that reply was the last one, in the key region.
   */
  lemma DoneWritesSlot(heap: nat, stretch: StretchFn, s: State, w: nat, output: seq<byte>)
    requires Answerable(s, w, output)
    ensures var s' := DoneStep(heap, stretch, s, w, output);
      var at := s.layout.blksPtr + Mul(s.blkLen, s.tags[w]);
      && s'.mem.Some? && |s'.mem.value| == |s.mem.value|
      && at + s.blkLen <= |s.mem.value|
      && Region(s'.mem.value, at, s.blkLen) == output
      && (forall k :: 0 <= k < |s.mem.value| && !(at <= k < at + s.blkLen)
            && !(s.doneCounter + 1 == s.argP && s.layout.dkPtr <= k < s.layout.dkPtr + StretchLen(s.dkLen))
            ==> s'.mem.value[k] == s.mem.value[k])
  {
    if s.doneCounter + 1 == s.argP {
      LastWritesSlot(heap, stretch, s, w, output);
    } else {
      NextWritesSlot(heap, stretch, s, w, output);
    }
  }

  /** The `ready` branch: one more ready worker; `onready` fires when the count reaches the thread count. */
  function ReadyStep(s: State): (s': State)
    ensures s' == s.(readyCounter := s.readyCounter + 1, events := s'.events)
    ensures |s.events| <= |s'.events| && s'.events[..|s.events|] == s.events
    ensures ReadyCount(s'.events) == ReadyCount(s.events) + (if s'.readyCounter == s.threads then 1 else 0)
  {
    var count := s.readyCounter + 1;
    s.(readyCounter := count, events := if count == s.threads then s.events + [ReadyCb] else s.events)
  }

  /** The `fail` branch: `onerror` with the allocation failure. */
  function FailStep(s: State): (s': State)
    ensures s' == s.(events := s'.events)
    ensures s'.events == s.events + [ErrorCb(AllocFailReason)]
    ensures ReadyCount(s'.events) == ReadyCount(s.events)
  {
    s.(events := s.events + [ErrorCb(AllocFailReason)])
  }

  /** The numeric fast case: worker w is answered with `true` at once. */
  function PingStep(s: State, w: nat): (s': State)
    ensures s' == s.(outbox := s'.outbox)
    ensures s'.outbox == s.outbox + [AckMsg(w)]
  {
    s.(outbox := s.outbox + [AckMsg(w)])
  }

  /** The invariant reads neither the two logs nor the ready counter. */
  lemma InvIgnoresLogs(heap: nat, stretch: StretchFn, s: State, s': State)
    requires Inv(heap, stretch, s)
    requires s' == s.(outbox := s'.outbox, events := s'.events, readyCounter := s'.readyCounter)
    ensures Inv(heap, stretch, s')
  {
  }

  /** How many times `onready` fired in a log. */
  function ReadyCount(evs: seq<Callback>): nat
  {
    if evs == [] then 0 else ReadyCount(evs[..|evs| - 1]) + (if evs[|evs| - 1] == ReadyCb then 1 else 0)
  }

  lemma {:induction false} ReadyCountAppend(a: seq<Callback>, b: seq<Callback>)
    ensures ReadyCount(a + b) == ReadyCount(a) + ReadyCount(b)
    decreases |b|
  {
    if b == [] {
      assert a + b == a;
    } else {
      assert (a + b)[..|a + b| - 1] == a + b[..|b| - 1];
      ReadyCountAppend(a, b[..|b| - 1]);
    }
  }

  /** k `ready` replies in a row. */
  function ReadyRun(s: State, k: nat): (s': State)
    ensures s' == s.(readyCounter := s.readyCounter + k, events := s'.events)
  {
    if k == 0 then s else ReadyStep(ReadyRun(s, k - 1))
  }

  /**
   * After `config` has reset the ready counter, `onready` fires exactly once over
   * any number k >= threads of `ready` replies, and not at all before. Every other
   * message leaves the ready counter as it is (`MessageStep`'s contract), so
   * replies of other kinds in between do not move the point where it reaches `threads`.
   */
  lemma {:induction false} ReadyFiresOnce(s: State, k: nat)
    requires s.readyCounter == 0 && s.threads >= 1
    ensures ReadyCount(ReadyRun(s, k).events) == ReadyCount(s.events) + (if k >= s.threads then 1 else 0)
  {
    if k > 0 {
      var prev := ReadyRun(s, k - 1);
      ReadyFiresOnce(s, k - 1);
      var fired: seq<Callback> := if k == s.threads then [ReadyCb] else [];
      assert ReadyRun(s, k).events == prev.events + fired;
      ReadyCountAppend(prev.events, fired);
      assert ReadyCount(fired) == if k == s.threads then 1 else 0 by {
        if k == s.threads {
          assert fired[..0] == [];
        }
      }
    }
  }

  /**
   * `msgHander`: a bare number is answered at once; otherwise the `state` picks
   * the done, ready or fail branch, and any other state is ignored.
   */
  function MessageStep(heap: nat, stretch: StretchFn, s: State, w: nat, msg: Incoming): (s': State)
    requires Inv(heap, stretch, s) && w < |s.tags|
    requires msg.Report? && msg.state == "done" ==> s.busy[w] && |msg.output| == s.blkLen
    ensures s'.layout == s.layout && s'.argP == s.argP && s'.threads == s.threads && s'.unloaded == s.unloaded
    ensures !(msg.Report? && msg.state == "done") ==> s'.mem == s.mem && s'.tags == s.tags && s'.doneCounter == s.doneCounter
    ensures !(msg.Report? && msg.state == "ready") ==> s'.readyCounter == s.readyCounter
  {
    match msg
    case Progress(_) => PingStep(s, w)
    case Report(state, output) =>
      if state == "done" then DoneStep(heap, stretch, s, w, output)
      else if state == "ready" then ReadyStep(s)
      else if state == "fail" then FailStep(s)
      else s
  }

  /** Every message the handler accepts keeps the invariant. */
  lemma MessageKeepsInv(heap: nat, stretch: StretchFn, s: State, w: nat, msg: Incoming)
    requires Inv(heap, stretch, s) && w < |s.tags|
    requires msg.Report? && msg.state == "done" ==> s.busy[w] && |msg.output| == s.blkLen
    ensures Inv(heap, stretch, MessageStep(heap, stretch, s, w, msg))
  {
    match msg
    case Progress(_) =>
      InvIgnoresLogs(heap, stretch, s, PingStep(s, w));
    case Report(state, output) =>
      if state == "done" {
        DoneKeepsInv(heap, stretch, s, w, output);
      } else if state == "ready" {
        InvIgnoresLogs(heap, stretch, s, ReadyStep(s));
      } else if state == "fail" {
        InvIgnoresLogs(heap, stretch, s, FailStep(s));
      }
  }

  /**
   * A numeric message, a `fail` and an unknown state leave the counters, the tags
   * and the arena as they were; only the reply to the worker or the error
   * callback is added.
   */
  lemma QuietMessages(heap: nat, stretch: StretchFn, s: State, w: nat, msg: Incoming)
    requires Inv(heap, stretch, s) && w < |s.tags|
    requires msg.Progress? || msg.state !in {"done", "ready"}
    ensures var s' := MessageStep(heap, stretch, s, w, msg);
      && s'.readyCounter == s.readyCounter && s'.doingCounter == s.doingCounter
      && s'.doneCounter == s.doneCounter && s'.tags == s.tags && s'.mem == s.mem
      && s'.outbox == s.outbox + (if msg.Progress? then [AckMsg(w)] else [])
      && s'.events == s.events + (if msg.Report? && msg.state == "fail" then [ErrorCb(AllocFailReason)] else [])
  {
  }

  /** `free()`: every pooled worker is asked to release its memory. */
  function FreeStep(s: State): (s': State)
    ensures s' == s.(outbox := s'.outbox)
    ensures |s'.outbox| == |s.outbox| + |s.tags| && s'.outbox[..|s.outbox|] == s.outbox
    ensures forall k :: |s.outbox| <= k < |s'.outbox| ==> s'.outbox[k] == FreeMsg(k - |s.outbox|)
  {
    s.(outbox := s.outbox + FreeMsgs(|s.tags|))
  }

  /** `unload()`: the pool becomes empty and the buffer and the asm.js module are dropped. */
  function UnloadStep(s: State): (s': State)
    ensures s'.tags == [] && Idle(s') && s'.mem.None? && s'.unloaded && !s'.started
    ensures s'.outbox == s.outbox && s'.events == s.events && s'.readyCounter == s.readyCounter
  {
    s.(tags := [], busy := [], mem := None, unloaded := true, started := false)
  }

  /** After `unload` the invariant holds whatever held before: there is no buffer and no pool left. */
  lemma UnloadKeepsInv(heap: nat, stretch: StretchFn, s: State)
    ensures Inv(heap, stretch, UnloadStep(s))
  {
  }
}
