/**
 * The key derivation the coordinator drives, with the asm.js primitives kept
 * abstract: one-iteration PBKDF2 (`_PBKDF2_OneIter`) and the per-block smix run
 * by the workers are given only by their length contracts.
 */
module Kdf {
  import opened Common
  import opened Arena
  import opened Blocks

  /** `_PBKDF2_OneIter(pass, salt, n)`: the asm.js routine, kept abstract. */
  type StretchFn = (seq<byte>, seq<byte>, nat) -> seq<byte>

  /** k zero bytes. */
  function Zeros(k: nat): (z: seq<byte>)
    ensures |z| == k
    ensures forall i :: 0 <= i < k ==> z[i] == 0
  {
    if k == 0 then [] else Zeros(k - 1) + [0]
  }

  /** Exactly n bytes: a longer output cut to n, a shorter one padded with zeros. */
  function Fit(s: seq<byte>, n: nat): (r: seq<byte>)
    ensures |r| == n
    ensures |s| >= n ==> r == s[..n]
    ensures |s| < n ==> r == s + Zeros(n - |s|)
  {
    if |s| >= n then s[..n] else s + Zeros(n - |s|)
  }

  /**
   * The n bytes `_PBKDF2_OneIter` leaves in the heap region it is told to fill:
   * the region is n bytes long whatever the routine computes.
   */
  function Stretch(f: StretchFn, pass: seq<byte>, salt: seq<byte>, n: nat): (out: seq<byte>)
    ensures |out| == n
    ensures |f(pass, salt, n)| == n ==> out == f(pass, salt, n)
  {
    Fit(f(pass, salt, n), n)
  }

  /** smix with cost N on one block: a block of the same length back. */
  type MixFn = f: (nat, seq<byte>) -> seq<byte> | forall n, b :: |f(n, b)| == |b|
    witness (n: nat, b: seq<byte>) => b

  /** `dkLen || maxDkLen`: 0 stands for a length that is absent or zero, both replaced by 64. */
  function DefaultDkLen(dkLen: nat): (r: nat)
    ensures 1 <= r
    ensures dkLen <= MaxDkLen ==> r <= MaxDkLen
    ensures dkLen != 0 ==> r == dkLen
    ensures dkLen == 0 ==> r == MaxDkLen
  {
    if dkLen != 0 then dkLen else MaxDkLen
  }

  /** `mDkLen > 32 ? mDkLen : 32`: the final PBKDF2 always produces at least 32 bytes. */
  function StretchLen(dkLen: nat): (r: nat)
    ensures r >= dkLen && r >= 32
    ensures r == dkLen || r == 32
  {
    if dkLen > 32 then dkLen else 32
  }

  /** The derived key `complete` delivers: the first dkLen bytes of the final PBKDF2 output. */
  function FinalKey(stretch: StretchFn, pass: seq<byte>, blocks: seq<byte>, dkLen: nat): (dk: seq<byte>)
    ensures |dk| == dkLen
    ensures dk <= Stretch(stretch, pass, blocks, StretchLen(dkLen))
  {
    Stretch(stretch, pass, blocks, StretchLen(dkLen))[..dkLen]
  }

  /**
   * A key shorter than 32 bytes is a truncation of the same 32-byte final output,
   * so any two such requests agree on their common prefix.
   */
  lemma ShortKeysArePrefixes(stretch: StretchFn, pass: seq<byte>, blocks: seq<byte>, short: nat, long: nat)
    requires short <= long <= 32
    ensures FinalKey(stretch, pass, blocks, short) <= FinalKey(stretch, pass, blocks, long)
  {
    var full := Stretch(stretch, pass, blocks, 32);
    assert FinalKey(stretch, pass, blocks, short) == full[..short];
    assert FinalKey(stretch, pass, blocks, long) == full[..long];
  }

  /** The first PBKDF2 output cut into p blocks of len bytes. */
  function Split(s: seq<byte>, len: nat, p: nat): (bs: seq<seq<byte>>)
    requires |s| == Mul(len, p)
    ensures |bs| == p
    ensures Uniform(bs, len)
    ensures Flatten(bs) == s
  {
    if p == 0 then []
    else
      var rest := Split(s[len..], len, p - 1);
      assert s == s[..len] + s[len..];
      [s[..len]] + rest
  }

  /** What the workers compute between the two PBKDF2 calls: smix on every block. */
  function MixEach(mix: MixFn, n: nat, bs: seq<seq<byte>>): (r: seq<seq<byte>>)
    ensures |r| == |bs|
    ensures forall i :: 0 <= i < |bs| ==> r[i] == mix(n, bs[i])
    ensures forall len: nat :: Uniform(bs, len) ==> Uniform(r, len)
  {
    seq(|bs|, i requires 0 <= i < |bs| => mix(n, bs[i]))
  }

  /**
   * The reference result of one `hash`: stretch password and salt into P blocks,
   * mix each block independently, stretch password and the mixed blocks into the key.
   */
  function Derive(stretch: StretchFn, mix: MixFn, n: nat, pass: seq<byte>, salt: seq<byte>,
                  blkLen: nat, p: nat, dkLen: nat): (dk: seq<byte>)
    ensures |dk| == dkLen
  {
    var seeded := Split(Stretch(stretch, pass, salt, Mul(blkLen, p)), blkLen, p);
    FinalKey(stretch, pass, Flatten(MixEach(mix, n, seeded)), dkLen)
  }
}
