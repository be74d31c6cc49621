module Common {
  datatype Option<+T> = None | Some(value: T)

  type Bytes = seq<bv8>

  function Zeros(n: nat): (z: Bytes)
    ensures |z| == n && forall i :: 0 <= i < n ==> z[i] == 0
  {
    seq(n, _ => 0)
  }

  /** A sequence of the given length that is zero everywhere is Zeros. */
  lemma ZerosIsUnique(z: Bytes)
    requires forall i :: 0 <= i < |z| ==> z[i] == 0
    ensures z == Zeros(|z|)
  {
  }
}
