/**
 * The block region of the arena seen as P blocks of blkLen bytes, the in-place
 * byte copy `Uint8Array.set` performs on it, and the effect of a sequence of
 * worker replies, each of which overwrites the slot of the block it was given.
 */
module Blocks {
  import opened Common

  /** The blocks laid end to end, as they sit in the arena. */
  function Flatten(bs: seq<seq<byte>>): seq<byte>
  {
    if bs == [] then [] else bs[0] + Flatten(bs[1..])
  }

  /** Every block is exactly len bytes long. */
  predicate Uniform(bs: seq<seq<byte>>, len: nat)
  {
    forall i :: 0 <= i < |bs| ==> |bs[i]| == len
  }

  /** The n bytes of m from offset at, as `new Uint8Array(buffer, at, n)` sees them. */
  function Region(m: seq<byte>, at: nat, n: nat): (r: seq<byte>)
    requires at + n <= |m|
    ensures |r| == n
    ensures forall i :: 0 <= i < n ==> r[i] == m[at + i]
  {
    seq(n, i requires 0 <= i < n => m[at + i])
  }

  /** A region is the slice of the same bytes. */
  lemma RegionIsSlice(m: seq<byte>, at: nat, n: nat)
    requires at + n <= |m|
    ensures Region(m, at, n) == m[at..at + n]
  {
    var w := m[at..at + n];
    assert forall i :: 0 <= i < n ==> w[i] == m[at + i];
  }

  /** The first k bytes of a region are the region of k bytes at the same offset. */
  lemma RegionPrefix(m: seq<byte>, at: nat, n: nat, k: nat)
    requires at + n <= |m| && k <= n
    ensures Region(m, at, k) == Region(m, at, n)[..k]
  {
    assert forall i :: 0 <= i < k ==> Region(m, at, n)[..k][i] == Region(m, at, n)[i];
  }

  /** A region of a region is the region of the whole at the shifted offset. */
  lemma RegionOfRegion(m: seq<byte>, base: nat, n: nat, at: nat, k: nat)
    requires base + n <= |m| && at + k <= n
    ensures Region(Region(m, base, n), at, k) == Region(m, base + at, k)
  {
    var w := Region(m, base, n);
    assert forall i :: 0 <= i < k ==> Region(w, at, k)[i] == w[at + i];
  }

  /** `dst.set(src, off)`: src copied over dst from offset off, everything else kept. */
  function Splice(dst: seq<byte>, off: nat, src: seq<byte>): (r: seq<byte>)
    requires off + |src| <= |dst|
    ensures |r| == |dst|
    ensures Region(r, off, |src|) == src
    ensures forall k :: 0 <= k < |dst| && !(off <= k < off + |src|) ==> r[k] == dst[k]
    decreases |src|
  {
    if |src| == 0 then dst
    else
      var r := Splice(dst[off := src[0]], off + 1, src[1..]);
      assert Region(r, off, |src|) == [src[0]] + src[1..];
      r
  }

  /** Inside the window the copy holds the bytes of src. */
  lemma SpliceAt(dst: seq<byte>, off: nat, src: seq<byte>, k: nat)
    requires off + |src| <= |dst| && off <= k < off + |src|
    ensures Splice(dst, off, src)[k] == src[k - off]
  {
    assert Region(Splice(dst, off, src), off, |src|)[k - off] == src[k - off];
  }

  /** Copying y over the middle part x of a + x + c gives a + y + c. */
  lemma SpliceMiddle(a: seq<byte>, x: seq<byte>, c: seq<byte>, y: seq<byte>)
    requires |x| == |y|
    ensures Splice(a + x + c, |a|, y) == a + y + c
  {
    var r := Splice(a + x + c, |a|, y);
    var t := a + y + c;
    forall k | 0 <= k < |t|
      ensures r[k] == t[k]
    {
      if |a| <= k < |a| + |y| {
        SpliceAt(a + x + c, |a|, y, k);
      }
    }
  }

  /** A copy that misses the n bytes at lo leaves them as they were. */
  lemma SpliceKeeps(dst: seq<byte>, off: nat, src: seq<byte>, lo: nat, n: nat)
    requires off + |src| <= |dst|
    requires lo + n <= |dst|
    requires lo + n <= off || off + |src| <= lo
    ensures Region(Splice(dst, off, src), lo, n) == Region(dst, lo, n)
  {
    var r := Splice(dst, off, src);
    assert forall i :: 0 <= i < n ==> Region(r, lo, n)[i] == r[lo + i];
  }

  /**
   * Two copies into disjoint windows, the second ending before the first begins:
   * the first copy stays in place and bytes outside both windows are unchanged.
   */
  lemma SpliceTwice(dst: seq<byte>, at: nat, n: nat, src: seq<byte>, off: nat, kn: nat, key: seq<byte>)
    requires |src| == n && |key| == kn
    requires at + n <= |dst|
    requires off + kn <= at
    ensures var r := Splice(Splice(dst, at, src), off, key);
      && |r| == |dst|
      && Region(r, at, n) == src
      && (forall k :: 0 <= k < |dst| && !(at <= k < at + n) && !(off <= k < off + kn) ==> r[k] == dst[k])
  {
    SpliceKeeps(Splice(dst, at, src), off, key, at, |src|);
  }

  /** A copy into a window of the buffer is the same copy into that window alone. */
  lemma SpliceWindow(s: seq<byte>, base: nat, n: nat, off: nat, src: seq<byte>)
    requires base + n <= |s|
    requires off + |src| <= n
    ensures Region(Splice(s, base + off, src), base, n) == Splice(Region(s, base, n), off, src)
  {
    var lhs := Region(Splice(s, base + off, src), base, n);
    var rhs := Splice(Region(s, base, n), off, src);
    forall k | 0 <= k < n
      ensures lhs[k] == rhs[k]
    {
      if off <= k < off + |src| {
        SpliceAt(s, base + off, src, base + k);
        SpliceAt(Region(s, base, n), off, src, k);
      }
    }
  }

  /** Slot i of p slots of len bytes ends within the region. */
  lemma {:induction false} SlotBound(len: nat, i: nat, p: nat)
    requires i < p
    ensures Mul(len, i) + len <= Mul(len, p)
  {
    if i + 1 < p {
      SlotBound(len, i, p - 1);
    }
  }

  lemma {:induction false} FlattenLength(bs: seq<seq<byte>>, len: nat)
    requires Uniform(bs, len)
    ensures |Flatten(bs)| == Mul(len, |bs|)
    decreases |bs|
  {
    if bs != [] {
      FlattenLength(bs[1..], len);
    }
  }

  lemma {:induction false} FlattenAppend(a: seq<seq<byte>>, b: seq<seq<byte>>)
    ensures Flatten(a + b) == Flatten(a) + Flatten(b)
  {
    if a == [] {
      assert a + b == b;
    } else {
      assert (a + b)[1..] == a[1..] + b;
      FlattenAppend(a[1..], b);
    }
  }

  /** Block i sits at byte offset len * i of the flattened region, with the others around it. */
  lemma FlattenAround(bs: seq<seq<byte>>, len: nat, i: nat)
    requires Uniform(bs, len)
    requires i < |bs|
    ensures Flatten(bs) == Flatten(bs[..i]) + bs[i] + Flatten(bs[i + 1..])
    ensures |Flatten(bs[..i])| == Mul(len, i)
    ensures Mul(len, i) + len <= |Flatten(bs)|
  {
    assert bs == bs[..i] + ([bs[i]] + bs[i + 1..]);
    FlattenAppend(bs[..i], [bs[i]] + bs[i + 1..]);
    FlattenAppend([bs[i]], bs[i + 1..]);
    assert Flatten([bs[i]]) == bs[i] by {
      assert [bs[i]][1..] == [];
    }
    FlattenLength(bs[..i], len);
    FlattenLength(bs, len);
  }

  /** The bytes of block i are the len bytes at offset len * i. */
  lemma SlotOf(bs: seq<seq<byte>>, len: nat, i: nat)
    requires Uniform(bs, len)
    requires i < |bs|
    ensures Mul(len, i) + len <= |Flatten(bs)|
    ensures Region(Flatten(bs), Mul(len, i), len) == bs[i]
  {
    FlattenAround(bs, len, i);
    var before := Flatten(bs[..i]);
    assert forall k :: 0 <= k < len ==> Region(Flatten(bs), |before|, len)[k] == (before + bs[i] + Flatten(bs[i + 1..]))[|before| + k];
  }

  /** Overwriting block i of the region in place is replacing element i of the block sequence. */
  lemma SlotUpdate(bs: seq<seq<byte>>, len: nat, i: nat, b: seq<byte>)
    requires Uniform(bs, len)
    requires i < |bs|
    requires |b| == len
    ensures Mul(len, i) + len <= |Flatten(bs)|
    ensures Flatten(bs[i := b]) == Splice(Flatten(bs), Mul(len, i), b)
  {
    var bs' := bs[i := b];
    var before, after := Flatten(bs[..i]), Flatten(bs[i + 1..]);
    FlattenAround(bs, len, i);
    FlattenAround(bs', len, i);
    assert bs'[..i] == bs[..i];
    assert bs'[i + 1..] == bs[i + 1..];
    SpliceMiddle(before, bs[i], after, b);
  }

  /** Where the region at base holds the blocks bs, block i is the len bytes at base + len * i. */
  lemma RegionSlot(m: seq<byte>, base: nat, bs: seq<seq<byte>>, len: nat, i: nat)
    requires Uniform(bs, len) && i < |bs|
    requires base + Mul(len, |bs|) <= |m|
    requires Region(m, base, Mul(len, |bs|)) == Flatten(bs)
    ensures base + Mul(len, i) + len <= |m|
    ensures Region(m, base + Mul(len, i), len) == bs[i]
  {
    SlotOf(bs, len, i);
    FlattenLength(bs, len);
    RegionOfRegion(m, base, Mul(len, |bs|), Mul(len, i), len);
  }

  /** Writing b over block i of that region leaves the region holding bs with block i replaced by b. */
  lemma RegionSlotWrite(m: seq<byte>, base: nat, bs: seq<seq<byte>>, len: nat, i: nat, b: seq<byte>)
    requires Uniform(bs, len) && i < |bs| && |b| == len
    requires base + Mul(len, |bs|) <= |m|
    requires Region(m, base, Mul(len, |bs|)) == Flatten(bs)
    ensures base + Mul(len, i) + len <= |m|
    ensures Region(Splice(m, base + Mul(len, i), b), base, Mul(len, |bs|)) == Flatten(bs[i := b])
  {
    SlotUpdate(bs, len, i, b);
    FlattenLength(bs, len);
    SpliceWindow(m, base, Mul(len, |bs|), Mul(len, i), b);
  }

  /** One `done` reply: the block index the worker was assigned and the bytes it returned. */
  datatype Reply = Reply(index: nat, bytes: seq<byte>)

  /** No block index is answered twice. */
  predicate Distinct(rs: seq<Reply>)
  {
    forall j, k :: 0 <= j < k < |rs| ==> rs[j].index != rs[k].index
  }

  /** The blocks after the replies rs, in arrival order, have each overwritten its slot. */
  function ApplyDones(init: seq<seq<byte>>, rs: seq<Reply>): (r: seq<seq<byte>>)
    ensures |r| == |init|
  {
    if rs == [] then init
    else
      var prev := ApplyDones(init, rs[..|rs| - 1]);
      var last := rs[|rs| - 1];
      if last.index < |prev| then prev[last.index := last.bytes] else prev
  }

  /** The bytes of the latest reply for block i, if any. */
  function Lookup(rs: seq<Reply>, i: nat): Option<seq<byte>>
  {
    if rs == [] then None
    else if rs[|rs| - 1].index == i then Some(rs[|rs| - 1].bytes)
    else Lookup(rs[..|rs| - 1], i)
  }

  /** Slot i holds the latest reply for i, or its initial bytes when there is none. */
  lemma {:induction false} ApplyDonesAt(init: seq<seq<byte>>, rs: seq<Reply>, i: nat)
    requires i < |init|
    ensures ApplyDones(init, rs)[i] == (if Lookup(rs, i).Some? then Lookup(rs, i).value else init[i])
  {
    if rs != [] {
      ApplyDonesAt(init, rs[..|rs| - 1], i);
    }
  }

  lemma {:induction false} LookupFound(rs: seq<Reply>, k: nat)
    requires Distinct(rs)
    requires k < |rs|
    ensures Lookup(rs, rs[k].index) == Some(rs[k].bytes)
  {
    if k < |rs| - 1 {
      LookupFound(rs[..|rs| - 1], k);
    }
  }

  lemma {:induction false} LookupMissing(rs: seq<Reply>, i: nat)
    requires forall k :: 0 <= k < |rs| ==> rs[k].index != i
    ensures Lookup(rs, i) == None
  {
    if rs != [] {
      LookupMissing(rs[..|rs| - 1], i);
    }
  }

  /** The completion order does not matter: any reordering of the same replies gives the same blocks. */
  lemma ApplyDonesPermutation(init: seq<seq<byte>>, a: seq<Reply>, b: seq<Reply>)
    requires Distinct(a) && Distinct(b)
    requires multiset(a) == multiset(b)
    ensures ApplyDones(init, a) == ApplyDones(init, b)
  {
    forall i | 0 <= i < |init|
      ensures ApplyDones(init, a)[i] == ApplyDones(init, b)[i]
    {
      ApplyDonesAt(init, a, i);
      ApplyDonesAt(init, b, i);
      if k :| 0 <= k < |a| && a[k].index == i {
        assert a[k] in multiset(b);
        var m :| 0 <= m < |b| && b[m] == a[k];
        LookupFound(a, k);
        LookupFound(b, m);
      } else {
        forall m | 0 <= m < |b|
          ensures b[m].index != i
        {
          assert b[m] in multiset(a);
        }
        LookupMissing(a, i);
        LookupMissing(b, i);
      }
    }
  }

  /** The set of block indices answered by rs. */
  function Answered(rs: seq<Reply>): set<nat>
  {
    set k | 0 <= k < |rs| :: rs[k].index
  }

  /** A reply for an index not yet answered adds its index, so the replies stay one per index. */
  lemma AnswerNew(rs: seq<Reply>, r: Reply)
    requires |Answered(rs)| == |rs|
    requires r.index !in Answered(rs)
    ensures Answered(rs + [r]) == Answered(rs) + {r.index}
    ensures |Answered(rs + [r])| == |rs + [r]|
  {
    assert (rs + [r])[..|rs|] == rs;
    AnsweredSnoc(rs + [r]);
  }

  /** The indices of a non-empty reply list: those of all but the last, and the last one's. */
  lemma AnsweredSnoc(rs: seq<Reply>)
    requires rs != []
    ensures Answered(rs) == Answered(rs[..|rs| - 1]) + {rs[|rs| - 1].index}
  {
    var front := rs[..|rs| - 1];
    forall x | x in Answered(rs)
      ensures x in Answered(front) + {rs[|rs| - 1].index}
    {
      var k :| 0 <= k < |rs| && rs[k].index == x;
      if k < |rs| - 1 {
        assert front[k] == rs[k];
      }
    }
    forall x | x in Answered(front)
      ensures x in Answered(rs)
    {
      var k :| 0 <= k < |front| && front[k].index == x;
      assert rs[k] == front[k];
    }
  }

  /** One more reply overwrites exactly its own slot. */
  lemma ApplyDonesSnoc(init: seq<seq<byte>>, rs: seq<Reply>, r: Reply)
    requires r.index < |init|
    ensures ApplyDones(init, rs + [r]) == ApplyDones(init, rs)[r.index := r.bytes]
  {
    assert (rs + [r])[..|rs|] == rs;
  }

  /** No more indices are answered than there are replies. */
  lemma {:induction false} AnsweredAtMost(rs: seq<Reply>)
    ensures |Answered(rs)| <= |rs|
  {
    if rs != [] {
      AnsweredAtMost(rs[..|rs| - 1]);
      AnsweredSnoc(rs);
    }
  }

  /** The replies answer distinct indices exactly when they answer as many indices as there are replies. */
  lemma {:induction false} DistinctCount(rs: seq<Reply>)
    ensures Distinct(rs) <==> |Answered(rs)| == |rs|
  {
    if rs != [] {
      var front := rs[..|rs| - 1];
      var last := rs[|rs| - 1];
      DistinctCount(front);
      AnsweredAtMost(front);
      AnsweredSnoc(rs);
      assert forall k :: 0 <= k < |front| ==> front[k] == rs[k];
      if Distinct(rs) {
        assert Distinct(front);
      }
      if |Answered(rs)| == |rs| {
        assert last.index !in Answered(front);
        forall j, k | 0 <= j < k < |rs|
          ensures rs[j].index != rs[k].index
        {
          if k == |rs| - 1 {
            assert rs[j].index in Answered(front);
          } else {
            assert front[j].index != front[k].index;
          }
        }
      }
    }
  }

  /** The indices 0..n-1 as a set. */
  function Below(n: nat): (s: set<nat>)
    ensures |s| == n
    ensures forall i: nat :: i in s <==> i < n
  {
    if n == 0 then {} else
      var s := Below(n - 1);
      assert n - 1 !in s;
      s + {n - 1}
  }

  lemma SubsetSize(a: set<nat>, b: set<nat>)
    requires a <= b
    ensures |a| <= |b|
    decreases a
  {
    if a != {} {
      var x :| x in a;
      SubsetSize(a - {x}, b - {x});
    }
  }

  /** Distinct replies for indices below n that miss index i are fewer than n. */
  lemma FewerAnswered(rs: seq<Reply>, n: nat, i: nat)
    requires |Answered(rs)| == |rs|
    requires forall k :: 0 <= k < |rs| ==> rs[k].index < n
    requires i < n && i !in Answered(rs)
    ensures |rs| < n
  {
    var rest := Below(n) - {i};
    assert |rest| == n - 1;
    assert Answered(rs) <= rest;
    SubsetSize(Answered(rs), rest);
  }

  /** n distinct replies for indices below n answer every index below n. */
  lemma Covers(rs: seq<Reply>, n: nat, i: nat)
    requires |Answered(rs)| == |rs|
    requires |rs| == n
    requires forall k :: 0 <= k < |rs| ==> rs[k].index < n
    requires i < n
    ensures exists k :: 0 <= k < |rs| && rs[k].index == i
  {
    if i !in Answered(rs) {
      FewerAnswered(rs, n, i);
      assert false;
    }
  }

  /**
   * Whatever order the P replies arrive in, once every block has been answered
   * exactly once the blocks are exactly what was answered for each index.
   */
  lemma AllDone(init: seq<seq<byte>>, rs: seq<Reply>, target: seq<seq<byte>>)
    requires |target| == |init| == |rs|
    requires |Answered(rs)| == |rs|
    requires forall k :: 0 <= k < |rs| ==> rs[k].index < |init| && rs[k].bytes == target[rs[k].index]
    ensures ApplyDones(init, rs) == target
  {
    DistinctCount(rs);
    forall i | 0 <= i < |init|
      ensures ApplyDones(init, rs)[i] == target[i]
    {
      Covers(rs, |init|, i);
      var k :| 0 <= k < |rs| && rs[k].index == i;
      LookupFound(rs, k);
      ApplyDonesAt(init, rs, i);
    }
  }
}
