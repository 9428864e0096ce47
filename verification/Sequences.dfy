/** Taking one element out of a sequence. */
module Sequences {
  function Without<T>(q: seq<T>, k: nat): (r: seq<T>)
    requires k < |q|
    ensures |r| == |q| - 1 && forall i | 0 <= i < |r| :: r[i] == if i < k then q[i] else q[i + 1]
  {
    q[..k] + q[k + 1..]
  }
}
