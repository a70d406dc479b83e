/** Shared vocabulary: bytes, an optional value, the larger of two naturals, and 0..n-1 in order. */
module Common {

  /** One byte of a Uint8Array: the model only copies bytes, so they are numbers 0..255. */
  newtype byte = b: int | 0 <= b < 256

  /** A value that may be absent, standing for JavaScript's `null`/`undefined`. */
  datatype Option<T> = None | Some(value: T)

  function Max(a: nat, b: nat): (m: nat)
    ensures m >= a && m >= b
    ensures m == a || m == b
  {
    if a >= b then a else b
  }

  /**
   * a * b as repeated addition. Block offsets and region lengths are written with
   * it, so that the verifier reasons about them with linear arithmetic only.
   */
  function Mul(a: nat, b: nat): nat
  {
    if b == 0 then 0 else Mul(a, b - 1) + a
  }

  /** Mul is the product. */
  lemma {:induction false} MulIsProduct(a: nat, b: nat)
    ensures Mul(a, b) == a * b
  {
    if b > 0 {
      MulIsProduct(a, b - 1);
      assert a * b == a * (b - 1) + a;
    }
  }

  /** The indices 0, 1, ..., n-1 in ascending order. */
  function Ascending(n: nat): (s: seq<nat>)
    ensures |s| == n
    ensures forall i :: 0 <= i < n ==> s[i] == i
  {
    seq(n, i => i)
  }
}
