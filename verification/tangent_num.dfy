/** The stand-alone tangent-number generator: the same in-place algorithm as
    the zag half of the ZigZag module, written out again in its own file. It
    is specified by the same table, so both generators agree on every n. */
module TangentNum {
  import opened ZigZag
  import Factorial

  /** The first n tangent numbers, computed in place over the factorials. */
  method ZagNums(n: nat) returns (r: seq<int>)
    ensures |r| == n
    ensures forall j :: 0 <= j < n ==> r[j] == Tangent(j)
  {
    var zags := new int[n](k => Factorial.Factorial(k));
    var k := 1;
    while k < n
      invariant 1 <= k && (n >= 1 ==> k <= n)
      invariant forall i {:trigger zags[i]} :: 0 <= i < n ==> zags[i] == ZagTable(k - 1, i)
    {
      for j := k to n
        invariant forall i {:trigger zags[i]} :: 0 <= i < j ==> zags[i] == ZagTable(k, i)
        invariant forall i {:trigger zags[i]} :: j <= i < n ==> zags[i] == ZagTable(k - 1, i)
      {
        ZagStep(k, j, zags[j - 1], zags[j]);
        zags[j] := (j - k) * zags[j - 1] + (j - k + 2) * zags[j];
      }
      k := k + 1;
    }
    forall j | 0 <= j < n
      ensures zags[j] == Tangent(j)
    {
      ZagFinal(n - 1, j);
    }
    r := zags[..];
  }
}
