/** A point view as the filters below read it: the X and Y of each point, by point id. */
module Points {

  datatype Point = Point(x: real, y: real)

  function Iota(n: nat): (s: seq<nat>)
    ensures |s| == n && forall i :: 0 <= i < n ==> s[i] == i
  {
    seq(n, i => i)
  }
}
